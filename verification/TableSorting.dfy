/** Sorting a whole route table: every method by itself, in the slots it already has. */
module TableSorting {
  import opened Patterns
  import opened Permutations
  import opened Specificity
  import opened Routes
  import opened RouteSorting

  /** The slots of a method, ascending. */
  function Slots(table: seq<Endpoint>, verb: HttpMethod): (slots: seq<nat>)
    ensures InRange(slots, |table|)
    ensures forall k :: 0 <= k < |slots| ==> table[slots[k]].verb == verb
  {
    if table == [] then []
    else
      var n := |table| - 1;
      Slots(table[..n], verb) + if table[n].verb == verb then [n] else []
  }

  /** The paths a method declares, in table order. */
  function MethodPaths(table: seq<Endpoint>, verb: HttpMethod): seq<string> {
    PathsOf(Pick(table, Slots(table, verb)))
  }

  /** How many of the first n slots have the method. */
  function Taken(table: seq<Endpoint>, n: nat, verb: HttpMethod): nat
    requires n <= |table|
  {
    |Slots(table[..n], verb)|
  }

  /** How many earlier slots have the method of slot i. */
  function Rank(table: seq<Endpoint>, i: nat): nat
    requires i < |table|
  {
    Taken(table, i, table[i].verb)
  }

  lemma {:induction false} SlotsOfPrefix(table: seq<Endpoint>, n: nat, verb: HttpMethod)
    requires n <= |table|
    ensures Slots(table[..n], verb) <= Slots(table, verb)
  {
    if n == |table| {
      assert table[..n] == table;
    } else {
      var front := table[..|table| - 1];
      SlotsOfPrefix(front, n, verb);
      assert front[..n] == table[..n];
    }
  }

  lemma SlotOfRank(table: seq<Endpoint>, i: nat)
    requires i < |table|
    ensures var slots := Slots(table, table[i].verb);
            Rank(table, i) < |slots| && slots[Rank(table, i)] == i
  {
    var verb := table[i].verb;
    var upTo := table[..i + 1];
    assert upTo[..i] == table[..i];
    assert Slots(upTo, verb) == Slots(table[..i], verb) + [i];
    SlotsOfPrefix(table, i + 1, verb);
  }

  lemma RankIsMonotone(table: seq<Endpoint>, i: nat, j: nat)
    requires i < j < |table| && table[i].verb == table[j].verb
    ensures Rank(table, i) < Rank(table, j)
  {
    var upTo := table[..j];
    SlotOfRank(upTo, i);
    assert upTo[..i] == table[..i];
  }

  /** Which declared route the sorted table holds in slot i. */
  function SortedIndex(table: seq<Endpoint>, i: nat): (index: nat)
    requires i < |table|
    ensures index < |table| && table[index].verb == table[i].verb
  {
    SlotOfRank(table, i);
    var slots := Slots(table, table[i].verb);
    slots[ContainmentOrder(MethodPaths(table, table[i].verb))[Rank(table, i)]]
  }

  function SortedIndexes(table: seq<Endpoint>): (indexes: seq<nat>)
    ensures |indexes| == |table| && InRange(indexes, |table|)
    ensures forall i :: 0 <= i < |table| ==> indexes[i] == SortedIndex(table, i)
  {
    seq(|table|, i requires 0 <= i < |table| => SortedIndex(table, i))
  }

  function Sorted(table: seq<Endpoint>): seq<Endpoint> {
    Pick(table, SortedIndexes(table))
  }

  // ---------------------------------------------------------------------
  // What sorting keeps and what it establishes
  // ---------------------------------------------------------------------

  lemma {:induction false} SlotsAreDistinct(table: seq<Endpoint>, verb: HttpMethod)
    ensures Distinct(Slots(table, verb))
  {
    if table != [] {
      SlotsAreDistinct(table[..|table| - 1], verb);
    }
  }

  /** No route is lost or doubled, and every slot keeps its method. */
  lemma SortingPermutesWithinMethods(table: seq<Endpoint>)
    ensures IsPermutation(SortedIndexes(table), |table|)
    ensures multiset(Sorted(table)) == multiset(table)
    ensures forall i :: 0 <= i < |table| ==> Sorted(table)[i].verb == table[i].verb
  {
    var indexes := SortedIndexes(table);
    forall i, j | 0 <= i < j < |table|
      ensures indexes[i] != indexes[j]
    {
      var verb := table[i].verb;
      if table[j].verb == verb {
        RankIsMonotone(table, i, j);
        SlotOfRank(table, i);
        SlotOfRank(table, j);
        SlotsAreDistinct(table, verb);
        var order := ContainmentOrder(MethodPaths(table, verb));
        assert order[Rank(table, i)] != order[Rank(table, j)];
      }
    }
    PickIsPermutation(table, indexes);
  }

  lemma {:induction false} SlotsDependOnMethods(a: seq<Endpoint>, b: seq<Endpoint>, verb: HttpMethod)
    requires |a| == |b| && forall i :: 0 <= i < |a| ==> a[i].verb == b[i].verb
    ensures Slots(a, verb) == Slots(b, verb)
  {
    if a != [] {
      SlotsDependOnMethods(a[..|a| - 1], b[..|b| - 1], verb);
    }
  }

  /** The routes of one method, after sorting, are its declared routes in containment order. */
  lemma SortedMethodPaths(table: seq<Endpoint>, verb: HttpMethod)
    ensures MethodPaths(Sorted(table), verb)
         == Pick(MethodPaths(table, verb), ContainmentOrder(MethodPaths(table, verb)))
    ensures multiset(MethodPaths(Sorted(table), verb)) == multiset(MethodPaths(table, verb))
  {
    var paths, slots, sorted := MethodPaths(table, verb), Slots(table, verb), Sorted(table);
    var order := ContainmentOrder(paths);
    SortingPermutesWithinMethods(table);
    SlotsDependOnMethods(sorted, table, verb);
    var left := MethodPaths(sorted, verb);
    forall r: nat | r < |slots|
      ensures left[r] == paths[order[r]]
    {
      RankOfSlot(table, verb, r);
      assert left[r] == sorted[slots[r]].path;
      assert SortedIndex(table, slots[r]) == slots[order[r]];
    }
    assert left == Pick(paths, order);
    PickIsPermutation(paths, order);
  }

  lemma RankOfSlot(table: seq<Endpoint>, verb: HttpMethod, r: nat)
    requires r < |Slots(table, verb)|
    ensures Rank(table, Slots(table, verb)[r]) == r
  {
    SlotOfRank(table, Slots(table, verb)[r]);
    SlotsAreDistinct(table, verb);
  }

  ghost predicate NarrowerFirst(table: seq<Endpoint>) {
    forall i, j :: 0 <= i < j < |table| && table[i].verb == table[j].verb
      ==> !StrictlyContains(table[i].path, table[j].path)
  }

  /** After sorting no route stands before a strictly narrower route of its method. */
  lemma SortedTableIsNarrowerFirst(table: seq<Endpoint>)
    ensures NarrowerFirst(Sorted(table))
  {
    var sorted := Sorted(table);
    SortingPermutesWithinMethods(table);
    forall i, j | 0 <= i < j < |sorted| && sorted[i].verb == sorted[j].verb
      ensures !StrictlyContains(sorted[i].path, sorted[j].path)
    {
      var verb := table[i].verb;
      var paths := MethodPaths(table, verb);
      var order := ContainmentOrder(paths);
      RankIsMonotone(table, i, j);
      SlotOfRank(table, i);
      SlotOfRank(table, j);
      var a, b := Rank(table, i), Rank(table, j);
      ContainmentIsPreorder(paths);
      OrderIsLinearExtension(ContainmentTable(paths));
      TableEntry(paths, order[a], order[b]);
      TableEntry(paths, order[b], order[a]);
      assert sorted[i].path == paths[order[a]] && sorted[j].path == paths[order[b]];
      assert !Strictly(ContainmentTable(paths), order[a], order[b]);
    }
  }

  /** A table that is already narrower first is left as it is. */
  lemma NarrowerFirstIsUnchanged(table: seq<Endpoint>)
    requires NarrowerFirst(table)
    ensures SortedIndexes(table) == UpTo(|table|) && Sorted(table) == table
  {
    forall i: nat | i < |table|
      ensures SortedIndex(table, i) == i
    {
      var verb := table[i].verb;
      var paths, slots := MethodPaths(table, verb), Slots(table, verb);
      ContainmentIsPreorder(paths);
      forall a, b | 0 <= a < b < |paths|
        ensures !Strictly(ContainmentTable(paths), a, b)
      {
        TableEntry(paths, a, b);
        TableEntry(paths, b, a);
        SlotsAscend(table, verb, a, b);
        assert !StrictlyContains(table[slots[a]].path, table[slots[b]].path);
      }
      CompliantListIsUnchanged(ContainmentTable(paths));
      SlotOfRank(table, i);
    }
  }

  lemma SlotsAscend(table: seq<Endpoint>, verb: HttpMethod, a: nat, b: nat)
    requires a < b < |Slots(table, verb)|
    ensures Slots(table, verb)[a] < Slots(table, verb)[b]
  {
    var i, j := Slots(table, verb)[a], Slots(table, verb)[b];
    RankOfSlot(table, verb, a);
    RankOfSlot(table, verb, b);
    if j < i {
      RankIsMonotone(table, j, i);
    }
  }

  lemma SortingIsIdempotent(table: seq<Endpoint>)
    ensures Sorted(Sorted(table)) == Sorted(table)
  {
    SortedTableIsNarrowerFirst(table);
    NarrowerFirstIsUnchanged(Sorted(table));
  }

  // ---------------------------------------------------------------------
  // The sort in place
  // ---------------------------------------------------------------------

  function Group(routes: seq<RouteDefinition>, verb: HttpMethod): seq<RouteDefinition> {
    Pick(routes, Slots(Endpoints(routes), verb))
  }

  function OrderedGroup(routes: seq<RouteDefinition>, verb: HttpMethod): seq<RouteDefinition> {
    Pick(Group(routes, verb), ContainmentOrder(PathsOf(Endpoints(Group(routes, verb)))))
  }

  lemma OrderedGroupEntry(routes: seq<RouteDefinition>, i: nat)
    requires i < |routes|
    ensures var table := Endpoints(routes);
            && Rank(table, i) < |OrderedGroup(routes, routes[i].verb)|
            && OrderedGroup(routes, routes[i].verb)[Rank(table, i)] == routes[SortedIndex(table, i)]
  {
    var table, verb := Endpoints(routes), routes[i].verb;
    SlotOfRank(table, i);
    assert PathsOf(Endpoints(Group(routes, verb))) == MethodPaths(table, verb);
  }

  lemma GroupGrows(routes: seq<RouteDefinition>, n: nat, verb: HttpMethod)
    requires n < |routes|
    ensures Group(routes[..n + 1], verb) == Group(routes[..n], verb) + if routes[n].verb == verb then [routes[n]] else []
    ensures Endpoints(routes[..n + 1])[..n] == Endpoints(routes[..n])
  {
    var table := Endpoints(routes[..n + 1]);
    assert table[..n] == Endpoints(routes[..n]);
    assert Slots(table, verb) == Slots(table[..n], verb) + if routes[n].verb == verb then [n] else [];
  }

  /** sortRoutesBySpecificity: group by method, order each group, write back slot by slot. */
  method SortRoutesBySpecificity(routes: array<RouteDefinition>)
    modifies routes
    ensures routes[..] == Pick(old(routes[..]), SortedIndexes(Endpoints(old(routes[..]))))
  {
    var byMethod := GroupByMethod(routes);
    byMethod := OrderGroups(routes[..], byMethod);
    ghost var target := Pick(routes[..], SortedIndexes(Endpoints(routes[..])));
    forall i: nat | i < routes.Length
      ensures Holds(byMethod, Endpoints(routes[..]), i, target[i])
    {
      OrderedGroupEntry(routes[..], i);
    }
    WriteBack(routes, byMethod, Endpoints(routes[..]), target);
  }

  method GroupByMethod(routes: array<RouteDefinition>) returns (byMethod: map<HttpMethod, seq<RouteDefinition>>)
    ensures forall verb :: verb in byMethod <==> Group(routes[..], verb) != []
    ensures forall verb :: verb in byMethod ==> byMethod[verb] == Group(routes[..], verb)
  {
    byMethod := map[];
    for index := 0 to routes.Length
      invariant forall verb :: verb in byMethod <==> Group(routes[..index], verb) != []
      invariant forall verb :: verb in byMethod ==> byMethod[verb] == Group(routes[..index], verb)
    {
      forall verb: HttpMethod {
        GroupGrows(routes[..], index, verb);
      }
      assert routes[..][..index] == routes[..index] && routes[..][..index + 1] == routes[..index + 1];
      var verb := routes[index].verb;
      var group := if verb in byMethod then byMethod[verb] else [];
      byMethod := byMethod[verb := group + [routes[index]]];
    }
    assert routes[..routes.Length] == routes[..];
  }

  /** The groups are visited in whatever order the map yields its keys. */
  method OrderGroups(ghost routes: seq<RouteDefinition>, groups: map<HttpMethod, seq<RouteDefinition>>)
    returns (byMethod: map<HttpMethod, seq<RouteDefinition>>)
    requires forall verb :: verb in groups ==> groups[verb] == Group(routes, verb)
    ensures byMethod.Keys == groups.Keys
    ensures forall verb :: verb in byMethod ==> byMethod[verb] == OrderedGroup(routes, verb)
  {
    byMethod := groups;
    var pending := byMethod.Keys;
    while pending != {}
      invariant pending <= byMethod.Keys == groups.Keys
      invariant forall verb :: verb in pending ==> byMethod[verb] == groups[verb]
      invariant forall verb :: verb in byMethod && verb !in pending ==> byMethod[verb] == OrderedGroup(routes, verb)
      decreases |pending|
    {
      var verb :| verb in pending;
      var ordered := StableContainmentOrder(byMethod[verb]);
      byMethod := byMethod[verb := ordered];
      pending := pending - {verb};
    }
  }

  /** The ordered groups hold the given route at the rank of slot i. */
  predicate Holds(byMethod: map<HttpMethod, seq<RouteDefinition>>, table: seq<Endpoint>, i: nat, route: RouteDefinition)
    requires i < |table|
  {
    var verb := table[i].verb;
    verb in byMethod && Rank(table, i) < |byMethod[verb]| && byMethod[verb][Rank(table, i)] == route
  }

  lemma HeldRoute(byMethod: map<HttpMethod, seq<RouteDefinition>>, table: seq<Endpoint>, i: nat, route: RouteDefinition)
    requires i < |table| && Holds(byMethod, table, i, route)
    ensures var verb, taken := table[i].verb, Taken(table, i, table[i].verb);
            verb in byMethod && taken < |byMethod[verb]| && byMethod[verb][taken] == route
  {
  }

  method WriteBack(routes: array<RouteDefinition>, byMethod: map<HttpMethod, seq<RouteDefinition>>,
                   ghost table: seq<Endpoint>, ghost target: seq<RouteDefinition>)
    requires |target| == routes.Length == |table|
    requires forall i :: 0 <= i < routes.Length ==> table[i].verb == routes[i].verb
    requires forall i: nat :: i < routes.Length ==> Holds(byMethod, table, i, target[i])
    modifies routes
    ensures routes[..] == target
  {
    var next: map<HttpMethod, nat> := map[];
    assert forall verb :: Taken(table, 0, verb) == 0;
    hide Taken, Holds;
    for index := 0 to routes.Length
      invariant forall verb :: Taken(table, index, verb) == (if verb in next then next[verb] else 0)
      invariant forall k :: 0 <= k < index ==> routes[k] == target[k]
      invariant forall k :: index <= k < routes.Length ==> routes[k] == old(routes[k])
    {
      var verb := routes[index].verb;
      HeldRoute(byMethod, table, index, target[index]);
      var taken := if verb in next then next[verb] else 0;
      routes[index] := byMethod[verb][taken];
      NextSlot(table, index);
      next := next[verb := taken + 1];
    }
  }

  lemma NextSlot(table: seq<Endpoint>, i: nat)
    requires i < |table|
    ensures forall verb :: Taken(table, i + 1, verb) == Taken(table, i, verb) + if verb == table[i].verb then 1 else 0
  {
    assert table[..i + 1][..i] == table[..i];
  }
}

/** First-match dispatch over a route table, and the analysis of routes it can never reach. */
module Dispatch {
  import opened Paths
  import opened Patterns
  import opened Wrappers
  import opened Routes
  import opened TableSorting

  predicate Matches(route: Endpoint, verb: HttpMethod, path: string) {
    route.verb == verb && PathMatchesPattern(route.path, path)
  }

  /** The route that answers a request: the first one, in table order, that matches it. */
  function FirstMatch(table: seq<Endpoint>, verb: HttpMethod, path: string): (hit: Option<nat>)
    ensures hit.Some? ==> hit.value < |table| && Matches(table[hit.value], verb, path)
    ensures forall k: nat :: k < (if hit.Some? then hit.value else |table|) ==> !Matches(table[k], verb, path)
  {
    if table == [] then None
    else if Matches(table[0], verb, path) then Some(0)
    else
      match FirstMatch(table[1..], verb, path)
      case None => None
      case Some(k) => Some(k + 1)
  }

  /** The route that answers is the first of the method whose pattern matches the path. */
  lemma DispatchMeaning(table: seq<Endpoint>, verb: HttpMethod, path: string, k: nat)
    ensures FirstMatch(table, verb, path) == Some(k) <==>
      && k < |table| && table[k].verb == verb && PathMatchesPattern(table[k].path, path)
      && forall e: nat :: e < k ==> table[e].verb != verb || !PathMatchesPattern(table[e].path, path)
    ensures FirstMatch(table, verb, path) == None <==>
      forall e: nat :: e < |table| ==> table[e].verb != verb || !PathMatchesPattern(table[e].path, path)
  {
    hide PathMatchesPattern;
  }

  /** After sorting, the route that answers a request is a most specific one among all
      routes that could have answered it. */
  lemma DispatchPicksMostSpecific(table: seq<Endpoint>, verb: HttpMethod, path: string, other: nat)
    requires var sorted := Sorted(table); other < |sorted| && Matches(sorted[other], verb, path)
    ensures var sorted := Sorted(table); var hit := FirstMatch(sorted, verb, path);
            hit.Some? && !StrictlyContains(sorted[hit.value].path, sorted[other].path)
  {
    SortedTableIsNarrowerFirst(table);
    var sorted := Sorted(table);
    var hit := FirstMatch(sorted, verb, path).value;
    assert hit <= other;
    assert hit < other ==> !StrictlyContains(sorted[hit].path, sorted[other].path);
  }

  /** The same in terms of requests: no other matching route accepts strictly fewer
      requests, off the one shape on which containment misses an inclusion. */
  lemma DispatchPicksFewestRequests(table: seq<Endpoint>, verb: HttpMethod, path: string, other: nat)
    requires forall k :: 0 <= k < |Sorted(table)| ==> WellFormed(Sorted(table)[k].path)
    requires var sorted := Sorted(table); other < |sorted| && Matches(sorted[other], verb, path)
    ensures var sorted := Sorted(table); var hit := FirstMatch(sorted, verb, path);
            && hit.Some?
            && (Includes(sorted[hit.value].path, sorted[other].path)
                && !Includes(sorted[other].path, sorted[hit.value].path)
                ==> ForcedBetween(sorted[hit.value].path, sorted[other].path))
  {
    DispatchPicksMostSpecific(table, verb, path, other);
    var sorted := Sorted(table);
    var hit := FirstMatch(sorted, verb, path).value;
    ContainmentDecidesInclusion(sorted[hit].path, sorted[other].path);
    ContainmentDecidesInclusion(sorted[other].path, sorted[hit].path);
  }

  // ---------------------------------------------------------------------
  // Shadow analysis
  // ---------------------------------------------------------------------

  datatype ShadowKind = ExactDuplicate | TrailingSlashEquivalent | CatchAllShadow | ParameterShadow | SameRequestSet

  datatype RouteShadow = RouteShadow(
    verb: HttpMethod, path: string, routeIndex: nat, shadowedByPath: string, shadowedByIndex: nat, kind: ShadowKind)

  function TrimSuffixSlash(s: string): string {
    if s != "" && s[|s| - 1] == '/' then s[..|s| - 1] else s
  }

  predicate ContainsKind(path: string, kind: SegmentKind) {
    exists k :: 0 <= k < |SplitPathSegments(path)| && ClassifySegment(SplitPathSegments(path)[k]) == kind
  }

  function KindOfShadow(earlier: string, later: string): ShadowKind {
    if earlier == later then ExactDuplicate
    else if TrimSuffixSlash(earlier) == TrimSuffixSlash(later) then TrailingSlashEquivalent
    else if ContainsKind(earlier, CatchAll) then CatchAllShadow
    else if ContainsKind(earlier, Param) then ParameterShadow
    else SameRequestSet
  }

  predicate Shadows(table: seq<Endpoint>, earlier: nat, route: nat, semantics: MatchingSemantics)
    requires earlier < |table| && route < |table|
  {
    table[earlier].verb == table[route].verb && ContainsWith(table[earlier].path, table[route].path, semantics)
  }

  /** The finding is about a route, and names the first earlier route that contains it. */
  predicate IsFinding(table: seq<Endpoint>, finding: RouteShadow, semantics: MatchingSemantics) {
    var route, earlier := finding.routeIndex, finding.shadowedByIndex;
    && earlier < route < |table|
    && Shadows(table, earlier, route, semantics)
    && (forall e: nat :: e < earlier ==> !Shadows(table, e, route, semantics))
    && finding == RouteShadow(table[route].verb, table[route].path, route, table[earlier].path, earlier,
                              KindOfShadow(table[earlier].path, table[route].path))
  }

  predicate IsShadowed(table: seq<Endpoint>, route: nat, semantics: MatchingSemantics)
    requires route < |table|
  {
    exists e: nat :: e < route && Shadows(table, e, route, semantics)
  }

  /** One finding for every shadowed route below n, in table order, and nothing else. */
  ghost predicate AreFindings(table: seq<Endpoint>, findings: seq<RouteShadow>, n: nat, semantics: MatchingSemantics)
    requires n <= |table|
  {
    && (forall k :: 0 <= k < |findings| ==> IsFinding(table, findings[k], semantics) && findings[k].routeIndex < n)
    && (forall j, k :: 0 <= j < k < |findings| ==> findings[j].routeIndex < findings[k].routeIndex)
    && (forall r: nat :: r < n && IsShadowed(table, r, semantics) ==>
          exists k :: 0 <= k < |findings| && findings[k].routeIndex == r)
  }

  /** AnalyzeRouteShadowsWithSemantics */
  method AnalyzeRouteShadows(table: seq<Endpoint>, semantics: MatchingSemantics) returns (findings: seq<RouteShadow>)
    ensures AreFindings(table, findings, |table|, semantics)
  {
    hide IsFinding, IsShadowed;
    findings := [];
    for route := 0 to |table|
      invariant AreFindings(table, findings, route, semantics)
    {
      var finding := FirstShadow(table, route, semantics);
      ghost var before := findings;
      if finding.Some? {
        findings := findings + [finding.value];
        assert findings[|before|].routeIndex == route;
      }
      forall r: nat | r <= route && IsShadowed(table, r, semantics)
        ensures exists k :: 0 <= k < |findings| && findings[k].routeIndex == r
      {
        if r < route {
          var k :| 0 <= k < |before| && before[k].routeIndex == r;
          assert findings[k].routeIndex == r;
        }
      }
    }
  }

  /** The inner loop, which stops at the first earlier route that contains this one. */
  method FirstShadow(table: seq<Endpoint>, route: nat, semantics: MatchingSemantics) returns (finding: Option<RouteShadow>)
    requires route < |table|
    ensures finding.Some? <==> IsShadowed(table, route, semantics)
    ensures finding.Some? ==> finding.value.routeIndex == route && IsFinding(table, finding.value, semantics)
  {
    for earlier := 0 to route
      invariant forall e: nat :: e < earlier ==> !Shadows(table, e, route, semantics)
    {
      if Shadows(table, earlier, route, semantics) {
        return Some(RouteShadow(table[route].verb, table[route].path, route, table[earlier].path, earlier,
                                KindOfShadow(table[earlier].path, table[route].path)));
      }
    }
    return None;
  }

  /** What the analysis reports about an unsorted table is true wherever the containment
      behind it is: no request is ever answered by a route it reports, unless a star inside
      a segment of that route makes containment claim too much. */
  lemma ReportedRouteIsUnreachable(table: seq<Endpoint>, finding: RouteShadow, semantics: MatchingSemantics, verb: HttpMethod, path: string)
    requires IsFinding(table, finding, semantics)
    requires WellFormed(finding.path) || !OverclaimsBetween(finding.shadowedByPath, finding.path)
    ensures FirstMatch(table, verb, path) != Some(finding.routeIndex)
  {
    var earlier, route := table[finding.shadowedByIndex], table[finding.routeIndex];
    if WellFormed(route.path) {
      ContainmentIsSound(earlier.path, route.path);
    } else {
      ContainmentIsSoundExactly(earlier.path, route.path);
    }
    assert Matches(route, verb, path) ==> Matches(earlier, verb, path);
  }

  /** How a finding is classified, by the two paths: the same one; one with a slash more at
      its end; otherwise by what the earlier one can take. */
  lemma ShadowKindMeaning(earlier: string, later: string)
    ensures KindOfShadow(earlier, later) == ExactDuplicate <==> earlier == later
    ensures KindOfShadow(earlier, later) == TrailingSlashEquivalent <==>
      (earlier == later + "/" && !EndsInSlash(later)) || (later == earlier + "/" && !EndsInSlash(earlier))
    ensures var parts := SplitPathSegments(earlier);
      KindOfShadow(earlier, later) == CatchAllShadow ==> exists k :: 0 <= k < |parts| && parts[k] != "" && parts[k][0] == '*'
    ensures var parts := SplitPathSegments(earlier);
      KindOfShadow(earlier, later) == ParameterShadow ==>
        && (exists k :: 0 <= k < |parts| && parts[k] != "" && parts[k][0] == ':')
        && forall k :: 0 <= k < |parts| ==> parts[k] == "" || parts[k][0] != '*'
    ensures var parts := SplitPathSegments(earlier);
      KindOfShadow(earlier, later) == SameRequestSet ==>
        forall k :: 0 <= k < |parts| ==> parts[k] == "" || (parts[k][0] != '*' && parts[k][0] != ':')
  {
    hide SplitPathSegments;
    var p, q := TrimSuffixSlash(earlier), TrimSuffixSlash(later);
    assert EndsInSlash(earlier) ==> earlier == p + "/";
    assert EndsInSlash(later) ==> later == q + "/";
    assert (earlier + "/")[..|earlier|] == earlier && (later + "/")[..|later|] == later;
  }

  predicate EndsInSlash(path: string) {
    path != "" && path[|path| - 1] == '/'
  }

  /** Where trailing slashes are distinct, no finding is about a path and the same path with
      a slash at its end. */
  lemma DistinctFindingsAreNoTwins(table: seq<Endpoint>, finding: RouteShadow)
    requires IsFinding(table, finding, MatchingSemantics(true))
    ensures finding.shadowedByPath != "" && !EndsInSlash(finding.shadowedByPath) ==> finding.path != finding.shadowedByPath + "/"
    ensures finding.path != "" && !EndsInSlash(finding.path) ==> finding.shadowedByPath != finding.path + "/"
  {
    var p, q := finding.shadowedByPath, finding.path;
    if p != "" && !EndsInSlash(p) {
      TrailingSlashTwins(p);
    }
    if q != "" && !EndsInSlash(q) {
      TrailingSlashTwins(q);
    }
  }

  /** In a sorted table only routes that contain each other are reported, whether or
      not the adapter tells trailing slashes apart. */
  lemma SortedTableReportsOnlyEquivalentRoutes(table: seq<Endpoint>, finding: RouteShadow, semantics: MatchingSemantics)
    requires IsFinding(Sorted(table), finding, semantics)
    ensures ContainsWith(finding.shadowedByPath, finding.path, semantics)
    ensures ContainsWith(finding.path, finding.shadowedByPath, semantics)
  {
    SortedTableIsNarrowerFirst(table);
    var sorted := Sorted(table);
    assert !StrictlyContains(sorted[finding.shadowedByIndex].path, sorted[finding.routeIndex].path);
  }
}

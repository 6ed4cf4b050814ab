/** When the pattern httprouter reports for a request is not the most specific one. */
module ReportedRoutes {
  import opened Paths
  import opened Patterns
  import opened PathConflicts
  import opened SharedRequests
  import opened Routes
  import opened PatternRank
  import opened Registration

  /** What getRoutePattern may report: a matching route that no matching route outranks. */
  ghost predicate IsReported(routes: seq<RouteDefinition>, verb: HttpMethod, path: string, best: RouteDefinition) {
    && best in routes && IsCandidate(best, verb, path)
    && forall r :: r in routes && IsCandidate(r, verb, path) ==> !Outranks(r.path, best.path)
  }

  /** A matching route is strictly narrower than the reported one. */
  ghost predicate IsMisreported(routes: seq<RouteDefinition>, verb: HttpMethod, path: string, best: RouteDefinition) {
    exists r :: r in routes && IsCandidate(r, verb, path) && StrictlyContains(best.path, r.path)
  }

  /** Two routes that match the request, one stopping at the catch-all of the other. */
  ghost predicate CatchAllMeetsItsRoot(routes: seq<RouteDefinition>, verb: HttpMethod, path: string) {
    exists b, n :: b in routes && n in routes && IsCandidate(b, verb, path) && IsCandidate(n, verb, path)
      && StopsAtCatchAll(b.path, n.path)
  }

  predicate IsWellFormedTable(routes: seq<RouteDefinition>, verb: HttpMethod) {
    forall r :: r in routes && r.verb == verb ==> WellFormed(r.path)
  }

  /** For the table of any httprouter run and any request, the reported route is beaten by a
      strictly narrower matching one exactly if two matching routes are a catch-all and a path
      that stops at it. */
  lemma MisreportedExactly(cfg: Config, ops: seq<Op>, verb: HttpMethod, path: string, best: RouteDefinition)
    requires cfg.adapter == HttpRouter && cfg.pathMode == Strict && cfg.enforceCatchAll && !cfg.enforceLints
    requires IsWellFormedTable(Run(cfg, ops).names.routes, verb)
    requires IsReported(Run(cfg, ops).names.routes, verb, path, best)
    ensures IsMisreported(Run(cfg, ops).names.routes, verb, path, best)
       <==> CatchAllMeetsItsRoot(Run(cfg, ops).names.routes, verb, path)
  {
    var routes := Run(cfg, ops).names.routes;
    hide Run, IsWellFormedTable, PathMatchesPattern, StrictlyContains, StopsAtCatchAll, Outranks;
    if r :| r in routes && IsCandidate(r, verb, path) && StrictlyContains(best.path, r.path) {
      ReportedPatternIsMostSpecific(best.path, r.path);
    }
    if b, n :| b in routes && n in routes && IsCandidate(b, verb, path) && IsCandidate(n, verb, path)
               && StopsAtCatchAll(b.path, n.path)
    {
      StoppingIsNarrower(b.path, n.path);
      CatchAllIsReported(cfg, ops, verb, path, best, b, n);
    }
  }

  /** The catch-all is what is reported. */
  lemma CatchAllIsReported(cfg: Config, ops: seq<Op>, verb: HttpMethod, path: string,
                           best: RouteDefinition, b: RouteDefinition, n: RouteDefinition)
    requires cfg.adapter == HttpRouter && cfg.pathMode == Strict && cfg.enforceCatchAll && !cfg.enforceLints
    requires var routes := Run(cfg, ops).names.routes;
      IsWellFormedTable(routes, verb) && IsReported(routes, verb, path, best) && b in routes && n in routes
    requires IsCandidate(b, verb, path) && IsCandidate(n, verb, path) && StopsAtCatchAll(b.path, n.path)
    ensures best == b
  {
    hide Run, IsWellFormedTable, PathMatchesPattern, WellFormed;
    StoppingIsNarrower(b.path, n.path);
    CatchAllGoesOn(b.path, n.path);
    LongerOutranksRoot(b.path, best.path);
    hide IsRoot, Outranks, StaticTwins, StopsAtCatchAllOf, StopsAtCatchAll, HasCatchAll;
    if best != b && best != n {
      Neighbours(cfg, ops, verb, path, best, b);
      if !IsRoot(n.path) {
        Neighbours(cfg, ops, verb, path, best, n);
      }
      SameStop(b.path, best.path, n.path);
    }
  }

  lemma CatchAllGoesOn(b: string, n: string)
    requires StopsAtCatchAll(b, n)
    ensures HasCatchAll(b) && !IsRoot(b) && !HasCatchAll(n)
    ensures IsRoot(n) ==> FirstCatchAll(SplitPathSegments(b)) == 0
  {
    var p, q := SplitPathSegments(b), SplitPathSegments(n);
    assert forall k :: 0 <= k < |q| ==> SameSegment(q[k], p[k]);
  }

  lemma LongerOutranksRoot(p: string, root: string)
    requires !IsRoot(p)
    ensures IsRoot(root) ==> Outranks(p, root)
  {
  }

  /** Two matching routes other than the root are twins, or one stops at the other. */
  lemma Neighbours(cfg: Config, ops: seq<Op>, verb: HttpMethod, path: string, r: RouteDefinition, s: RouteDefinition)
    requires cfg.adapter == HttpRouter && cfg.pathMode == Strict && cfg.enforceCatchAll && !cfg.enforceLints && r != s
    requires r in Run(cfg, ops).names.routes && s in Run(cfg, ops).names.routes
    requires IsWellFormedTable(Run(cfg, ops).names.routes, verb)
    requires IsCandidate(r, verb, path) && IsCandidate(s, verb, path) && !IsRoot(r.path) && !IsRoot(s.path)
    ensures StaticTwins(r.path, s.path) || StaticTwins(s.path, r.path)
         || StopsAtCatchAllOf(r.path, s.path) || StopsAtCatchAllOf(s.path, r.path)
  {
    var routes := Run(cfg, ops).names.routes;
    hide Run, PathMatchesPattern, WellFormed, IsRoot, StaticTwins, StopsAtCatchAllOf;
    var i := PositionOf(routes, r);
    var j := PositionOf(routes, s);
    var table := Endpoints(routes);
    assert table[i] == r.AsEndpoint() && table[j] == s.AsEndpoint();
    assert ShareRequest(r.path, s.path) && ShareRequest(s.path, r.path);
    if i < j {
      HttpRouterRoutesShareExactly(cfg, ops, i, j);
    } else {
      HttpRouterRoutesShareExactly(cfg, ops, j, i);
    }
  }

  lemma PositionOf(routes: seq<RouteDefinition>, r: RouteDefinition) returns (i: nat)
    requires r in routes
    ensures i < |routes| && routes[i] == r
  {
    i :| i < |routes| && routes[i] == r;
  }

  /** A route that stops at the catch-all of b, next to another that does, is its twin, and
      then b outranks it just the same. */
  lemma SameStop(b: string, p: string, n: string)
    requires StopsAtCatchAll(b, n) && HasCatchAll(b) && !HasCatchAll(n)
    requires StaticTwins(p, b) || StaticTwins(b, p) || StopsAtCatchAllOf(p, b) || StopsAtCatchAllOf(b, p)
    requires IsRoot(n) || StaticTwins(p, n) || StaticTwins(n, p) || StopsAtCatchAllOf(p, n) || StopsAtCatchAllOf(n, p)
    ensures Outranks(b, p)
  {
    StaticTwinsHaveNoCatchAll(p, b);
    StaticTwinsHaveNoCatchAll(b, p);
    CatchAllMeaning(b);
    CatchAllMeaning(n);
    assert StopsAtCatchAllOf(p, b);
    assert !StopsAtCatchAllOf(p, n) && !StopsAtCatchAllOf(n, p);
    assert SplitPathSegments(p) == SplitPathSegments(n);
    StoppingIsNarrower(b, p);
  }
}

/** When two patterns match one request by the code's own matching, in which a catch-all
    takes zero or more segments, against conflict detection, which reads it as one or more. */
module SharedRequests {
  import opened Paths
  import opened Patterns
  import opened PathConflicts

  ghost predicate ShareRequest(p: string, q: string) {
    exists path :: PathMatchesPattern(p, path) && PathMatchesPattern(q, path)
  }

  predicate IsRoot(path: string) {
    SplitPathSegments(path) == []
  }

  /** The first pattern has no catch-all and exactly as many segments as stand before the
      catch-all of the second, no two of them different static ones. A request cannot end in
      an empty segment, so the second must not demand one there. */
  predicate StopsAt(e: seq<Segment>, n: seq<Segment>) {
    && 0 < |e| == FirstCatchAll(e) == FirstCatchAll(n) < |n|
    && First(StaticClash, e, n) >= |e|
    && n[|e| - 1] != ""
  }

  predicate StopsAtCatchAllOf(p: string, q: string) {
    StopsAt(SplitPathSegments(p), SplitPathSegments(q))
  }

  predicate IsRequest(r: seq<Segment>) {
    r == [""] || (r != [] && Trimmed(r))
  }

  lemma CommonRequestTouches(e: seq<Segment>, n: seq<Segment>, r: seq<Segment>)
    requires e != [] && n != [] && Trimmed(e) && Trimmed(n) && IsRequest(r)
    requires Accepts(e, r) && Accepts(n, r)
    ensures Compatible(e, n) || StopsAt(e, n) || StopsAt(n, e)
  {
    var i, k := FirstCatchAll(e), FirstCatchAll(n);
    FirstSymmetric(StaticClash, e, n);
    forall m | 0 <= m < Min(i, k)
      ensures !Shows(StaticClash, e[m], n[m])
    {
      assert SegmentMatches(e[m], r[m]) && SegmentMatches(n[m], r[m]);
    }
    assert i == |e| == k < |n| ==> SegmentMatches(n[k - 1], r[k - 1]);
    assert k == |n| == i < |e| ==> SegmentMatches(e[i - 1], r[i - 1]);
  }

  /** A request of exactly the segments of e that n takes with an empty catch-all. */
  function StoppingRequest(e: seq<Segment>, n: seq<Segment>): (r: seq<Segment>)
    requires |n| >= |e|
    ensures |r| == |e|
  {
    seq(|e|, m requires 0 <= m < |e| =>
      if ClassifySegment(e[m]) == Static then e[m] else if ClassifySegment(n[m]) == Static then n[m] else "x")
  }

  lemma StoppingRequestIsShared(e: seq<Segment>, n: seq<Segment>)
    requires StopsAt(e, n) && Trimmed(e) && Trimmed(n)
    ensures var r := StoppingRequest(e, n); Trimmed(r) && Accepts(e, r) && Accepts(n, r)
  {
    var r := StoppingRequest(e, n);
    forall m | 0 <= m < |r|
      ensures '/' !in r[m] && SegmentMatches(e[m], r[m]) && SegmentMatches(n[m], r[m])
    {
      assert !Shows(StaticClash, e[m], n[m]);
    }
  }

  lemma RequestOf(r: seq<Segment>) returns (path: string)
    requires r != [] && Trimmed(r)
    ensures RequestParts(path) == r && SplitPathSegments(path) == r
  {
    path := Join(r);
    PathOfSegments(r);
  }

  lemma ServedIsMatched(e: seq<Segment>, r: seq<Segment>)
    requires e != [] && AdapterAccepts(e, r)
    ensures r != [] && Accepts(e, r)
  {
  }

  lemma OverlapSharesRequest(p: string, q: string)
    requires WellFormed(p) && WellFormed(q) && !IsRoot(p) && !IsRoot(q) && Overlap(p, q)
    ensures ShareRequest(p, q)
  {
    hide AdapterAccepts, Accepts, PathMatchesPattern, SplitPathSegments;
    var path :| Serves(p, path) && Serves(q, path);
    ServedIsMatched(SplitPathSegments(p), SplitPathSegments(path));
    ServedIsMatched(SplitPathSegments(q), SplitPathSegments(path));
    MatchMeaning(p, path);
    MatchMeaning(q, path);
  }

  lemma StoppingSharesRequest(p: string, q: string)
    requires WellFormed(p) && WellFormed(q) && StopsAtCatchAllOf(p, q)
    ensures ShareRequest(p, q)
  {
    var e, n := SplitPathSegments(p), SplitPathSegments(q);
    SegmentsAreTrimmed(p);
    SegmentsAreTrimmed(q);
    StoppingRequestIsShared(e, n);
    var path := RequestOf(StoppingRequest(e, n));
    hide Accepts, PathMatchesPattern, SplitPathSegments, StopsAt;
    MatchMeaning(p, path);
    MatchMeaning(q, path);
  }

  /** Two patterns other than the root share a request exactly if they overlap as conflict
      detection sees it, or one of them stops at the catch-all of the other. */
  lemma SharedRequestsExactly(p: string, q: string)
    requires WellFormed(p) && WellFormed(q) && !IsRoot(p) && !IsRoot(q)
    ensures ShareRequest(p, q) <==> Overlap(p, q) || StopsAtCatchAllOf(p, q) || StopsAtCatchAllOf(q, p)
  {
    if path :| PathMatchesPattern(p, path) && PathMatchesPattern(q, path) {
      SegmentsAreTrimmed(p);
      SegmentsAreTrimmed(q);
      SegmentsAreTrimmed(path);
      MatchMeaning(p, path);
      MatchMeaning(q, path);
      OverlapMeaning(p, q);
      CommonRequestTouches(SplitPathSegments(p), SplitPathSegments(q), RequestParts(path));
    }
    if Overlap(p, q) {
      OverlapSharesRequest(p, q);
    } else if StopsAtCatchAllOf(p, q) {
      StoppingSharesRequest(p, q);
    } else if StopsAtCatchAllOf(q, p) {
      StoppingSharesRequest(q, p);
    }
  }

  /** What a pattern must look like to match the request to the root, whose one part is
      empty: the root itself, a leading catch-all, or one parameter up to its end or its
      catch-all. */
  predicate TakesRoot(q: string) {
    var n := SplitPathSegments(q);
    n == [] || FirstCatchAll(n) == 0 || (FirstCatchAll(n) == 1 && ClassifySegment(n[0]) == Param)
  }

  lemma RootSharesExactly(root: string, q: string)
    requires WellFormed(q) && IsRoot(root)
    ensures ShareRequest(root, q) <==> TakesRoot(q)
  {
    SegmentsAreTrimmed(q);
    MatchMeaning(root, root);
    MatchMeaning(q, root);
    forall path | PathMatchesPattern(root, path) && PathMatchesPattern(q, path)
      ensures TakesRoot(q)
    {
      MatchMeaning(root, path);
      MatchMeaning(q, path);
    }
  }
}

/** Ranking patterns segment by segment, and the declared pattern httprouter reports for a
    request. */
module PatternRank {
  import opened Paths
  import opened Patterns
  import opened Routes

  /** compareSegmentKind */
  function CompareKinds(left: SegmentKind, right: SegmentKind): int {
    if left == right then 0
    else if left == Static then 1
    else if right == Static then -1
    else if left == Param then 1
    else -1
  }

  /** The comparison from segment i on: kinds first, then length; different static segments
      end it without a decision. */
  function CompareFrom(left: seq<Segment>, right: seq<Segment>, i: nat): int
    requires i <= Min(|left|, |right|)
    decreases Min(|left|, |right|) - i
  {
    if i == Min(|left|, |right|) then
      if |left| > |right| then 1 else if |left| < |right| then -1 else 0
    else
      var leftKind, rightKind := ClassifySegment(left[i]), ClassifySegment(right[i]);
      if leftKind != rightKind then CompareKinds(leftKind, rightKind)
      else if leftKind == Static && left[i] != right[i] then 0
      else CompareFrom(left, right, i + 1)
  }

  function CompareSpecificity(leftPath: string, rightPath: string): int {
    CompareFrom(SplitPathSegments(leftPath), SplitPathSegments(rightPath), 0)
  }

  /** compareRouteSpecificity */
  method CompareRouteSpecificity(leftPath: string, rightPath: string) returns (order: int)
    ensures order == CompareSpecificity(leftPath, rightPath)
  {
    var left, right := SplitPathSegments(leftPath), SplitPathSegments(rightPath);
    for i := 0 to Min(|left|, |right|)
      invariant CompareFrom(left, right, 0) == CompareFrom(left, right, i)
    {
      var leftKind, rightKind := ClassifySegment(left[i]), ClassifySegment(right[i]);
      if leftKind != rightKind {
        return CompareKinds(leftKind, rightKind);
      }
      if leftKind == Static && left[i] != right[i] {
        return 0;
      }
    }
    order := if |left| > |right| then 1 else if |left| < |right| then -1 else 0;
  }

  // ---------------------------------------------------------------------
  // The ranking is an order
  // ---------------------------------------------------------------------

  predicate SameSegment(a: Segment, b: Segment) {
    ClassifySegment(a) == ClassifySegment(b) && (ClassifySegment(a) == Static ==> a == b)
  }

  predicate AgreeBelow(left: seq<Segment>, right: seq<Segment>, n: nat) {
    n <= |left| && n <= |right| && forall k :: 0 <= k < n ==> SameSegment(left[k], right[k])
  }

  /** left outranks right at segment i: it has the stronger kind there, or goes on. */
  predicate OutranksAt(left: seq<Segment>, right: seq<Segment>, i: nat) {
    && AgreeBelow(left, right, i) && i < |left|
    && (i == |right| || CompareKinds(ClassifySegment(left[i]), ClassifySegment(right[i])) > 0)
  }

  lemma {:induction false} OutrankMeaning(left: seq<Segment>, right: seq<Segment>, i: nat)
    requires AgreeBelow(left, right, i)
    ensures CompareFrom(left, right, i) > 0 <==> exists k: nat :: k >= i && OutranksAt(left, right, k)
    ensures CompareFrom(left, right, i) == -CompareFrom(right, left, i)
    decreases Min(|left|, |right|) - i
  {
    if i < Min(|left|, |right|) && SameSegment(left[i], right[i]) {
      OutrankMeaning(left, right, i + 1);
      assert OutranksAt(left, right, i) ==> i >= |right|;
    } else if CompareFrom(left, right, i) > 0 {
      assert OutranksAt(left, right, i);
    }
  }

  predicate Outranks(leftPath: string, rightPath: string) {
    CompareSpecificity(leftPath, rightPath) > 0
  }

  lemma OutranksSegments(leftPath: string, rightPath: string)
    ensures Outranks(leftPath, rightPath)
       <==> exists k: nat :: OutranksAt(SplitPathSegments(leftPath), SplitPathSegments(rightPath), k)
    ensures Outranks(leftPath, rightPath) ==> !Outranks(rightPath, leftPath)
  {
    OutrankMeaning(SplitPathSegments(leftPath), SplitPathSegments(rightPath), 0);
  }

  /** left ranks higher than right exactly if, at the first segment where they are not alike,
      left goes on and right has ended, or left is the stronger of the two: static before
      parameter before catch-all. */
  lemma OutranksExactly(leftPath: string, rightPath: string)
    ensures Outranks(leftPath, rightPath) <==>
      var left, right := SplitPathSegments(leftPath), SplitPathSegments(rightPath);
      exists i: nat :: AgreeBelow(left, right, i) && i < |left| && (i == |right| || IsStronger(left[i], right[i]))
  {
    OutranksSegments(leftPath, rightPath);
    var left, right := SplitPathSegments(leftPath), SplitPathSegments(rightPath);
    hide SplitPathSegments, CompareSpecificity, SameSegment;
    if i: nat :| OutranksAt(left, right, i) {
      assert i == |right| || IsStronger(left[i], right[i]);
    }
    if i: nat :| AgreeBelow(left, right, i) && i < |left| && (i == |right| || IsStronger(left[i], right[i])) {
      assert OutranksAt(left, right, i);
    }
  }

  predicate IsStronger(a: Segment, b: Segment) {
    var starA, starB := a != "" && a[0] == '*', b != "" && b[0] == '*';
    var paramA, paramB := a != "" && a[0] == ':', b != "" && b[0] == ':';
    (!starA && !paramA && (starB || paramB)) || (paramA && starB)
  }

  lemma OutranksIsTransitive(a: string, b: string, c: string)
    requires Outranks(a, b) && Outranks(b, c)
    ensures Outranks(a, c)
  {
    OutranksSegments(a, b);
    OutranksSegments(b, c);
    OutranksSegments(a, c);
    var x, y, z := SplitPathSegments(a), SplitPathSegments(b), SplitPathSegments(c);
    hide SplitPathSegments, CompareSpecificity, ClassifySegment;
    var i: nat :| OutranksAt(x, y, i);
    var j: nat :| OutranksAt(y, z, j);
    assert OutranksAt(x, z, if i < j then i else j);
  }

  // ---------------------------------------------------------------------
  // Ranking against containment
  // ---------------------------------------------------------------------

  /** The narrow pattern stops where the catch-all of the broad one begins, and up to there
      they are alike. */
  predicate StopsAtCatchAll(broad: string, narrow: string) {
    var b, n := SplitPathSegments(broad), SplitPathSegments(narrow);
    |n| == FirstCatchAll(b) < |b| && AgreeBelow(n, b, |n|)
  }

  /** A strictly narrower pattern outranks the broader one, except where it stops at the
      catch-all of the broader one: there the broader pattern, being longer, outranks it. */
  lemma NarrowerOutranksExactly(broad: string, narrow: string)
    requires StrictlyContains(broad, narrow)
    ensures Outranks(narrow, broad) <==> !StopsAtCatchAll(broad, narrow)
    ensures StopsAtCatchAll(broad, narrow) ==> Outranks(broad, narrow)
  {
    ContainsMeaning(broad, narrow);
    ContainsMeaning(narrow, broad);
    OutranksSegments(narrow, broad);
    OutranksSegments(broad, narrow);
    var b, n := SplitPathSegments(broad), SplitPathSegments(narrow);
    hide SplitPathSegments, CompareSpecificity;
    var star := FirstCatchAll(b);
    if AgreeBelow(n, b, star) {
      AgreementAtCatchAll(b, n);
      assert OutranksAt(if |n| == star then b else n, if |n| == star then n else b, star);
    } else {
      var i := FirstDisagreement(n, b, star);
      assert Covers(b[i], n[i]);
      assert OutranksAt(n, b, i);
    }
  }

  /** If two patterns agree up to the first catch-all of one that strictly contains the
      other, the other stops there or goes on with something stronger. */
  lemma AgreementAtCatchAll(b: seq<Segment>, n: seq<Segment>)
    requires CoversPattern(b, n) && !CoversPattern(n, b) && AgreeBelow(n, b, FirstCatchAll(b))
    ensures FirstCatchAll(b) < |b|
    ensures FirstCatchAll(b) < |n| ==> ClassifySegment(n[FirstCatchAll(b)]) != CatchAll
  {
    assert forall k :: 0 <= k < FirstCatchAll(b) ==> SameSegment(n[k], b[k]);
  }

  lemma FirstDisagreement(left: seq<Segment>, right: seq<Segment>, n: nat) returns (i: nat)
    requires n <= |left| && n <= |right| && !AgreeBelow(left, right, n)
    ensures i < n && AgreeBelow(left, right, i) && !SameSegment(left[i], right[i])
  {
    i := 0;
    while SameSegment(left[i], right[i])
      invariant i < n && AgreeBelow(left, right, i)
      decreases n - i
    {
      assert AgreeBelow(left, right, i + 1);
      i := i + 1;
    }
  }

  /** For a request to the root of a catch-all both patterns match, and the broader wins. */
  lemma CatchAllOutranksItsRoot(broad: string, narrow: string)
    requires broad == "/files/*path" && narrow == "/files"
    ensures StrictlyContains(broad, narrow) && Outranks(broad, narrow)
    ensures PathMatchesPattern(broad, narrow) && PathMatchesPattern(narrow, narrow)
  {
    RootedPathOfTwo("files", "*path", broad);
    RootedPathOfOne("files", narrow);
    ContainsMeaning(broad, narrow);
    ContainsMeaning(narrow, broad);
    assert StopsAtCatchAll(broad, narrow);
    NarrowerOutranksExactly(broad, narrow);
  }

  // ---------------------------------------------------------------------
  // The pattern reported for a request
  // ---------------------------------------------------------------------

  predicate IsCandidate(route: RouteDefinition, verb: HttpMethod, path: string) {
    route.verb == verb && PathMatchesPattern(route.path, path)
  }

  /** getRoutePattern: null when nothing matches, otherwise a matching route that no
      matching route outranks. */
  method GetRoutePattern(routes: seq<RouteDefinition>, verb: HttpMethod, path: string) returns (best: RouteDefinition?)
    ensures best == null <==> forall r :: r in routes ==> !IsCandidate(r, verb, path)
    ensures best == null ==> forall r :: r in routes ==> r.verb != verb || !PathMatchesPattern(r.path, path)
    ensures best != null ==> best in routes && best.verb == verb && PathMatchesPattern(best.path, path)
    ensures best != null ==> best in routes && IsCandidate(best, verb, path)
    ensures best != null ==> forall r :: r in routes && IsCandidate(r, verb, path) ==> !Outranks(r.path, best.path)
  {
    hide PathMatchesPattern, CompareSpecificity;
    best := null;
    for k := 0 to |routes|
      invariant best == null ==> forall r :: r in routes[..k] ==> !IsCandidate(r, verb, path)
      invariant best != null ==> best in routes[..k] && IsCandidate(best, verb, path)
      invariant best != null ==> forall r :: r in routes[..k] && IsCandidate(r, verb, path) ==> !Outranks(r.path, best.path)
    {
      var route := routes[k];
      assert routes[..k + 1] == routes[..k] + [route];
      if route.verb != verb || !PathMatchesPattern(route.path, path) {
        continue;
      }
      if best == null {
        NotOutrankedByItself(route.path);
        best := route;
        continue;
      }
      var order := CompareRouteSpecificity(route.path, best.path);
      if order > 0 {
        NotOutrankedByItself(route.path);
        forall r | r in routes[..k] && IsCandidate(r, verb, path)
          ensures !Outranks(r.path, route.path)
        {
          NewBestIsNotOutranked(r.path, route.path, best.path);
        }
        best := route;
      }
    }
    assert routes[..|routes|] == routes;
  }

  lemma NewBestIsNotOutranked(other: string, newBest: string, oldBest: string)
    requires Outranks(newBest, oldBest) && !Outranks(other, oldBest)
    ensures !Outranks(other, newBest)
  {
    hide Outranks;
    if Outranks(other, newBest) {
      OutranksIsTransitive(other, newBest, oldBest);
    }
  }

  lemma NotOutrankedByItself(path: string)
    ensures !Outranks(path, path)
  {
    OutranksSegments(path, path);
  }

  /** What a pattern that stops at a catch-all has to do with the broader one. */
  lemma StoppingIsNarrower(broad: string, narrow: string)
    requires StopsAtCatchAll(broad, narrow)
    ensures StrictlyContains(broad, narrow) && Outranks(broad, narrow) && !Outranks(narrow, broad)
  {
    ContainsMeaning(broad, narrow);
    ContainsMeaning(narrow, broad);
    var b, n := SplitPathSegments(broad), SplitPathSegments(narrow);
    assert forall k :: 0 <= k < |n| ==> SameSegment(n[k], b[k]);
    hide SplitPathSegments, CompareSpecificity;
    NarrowerOutranksExactly(broad, narrow);
    OutranksSegments(broad, narrow);
  }

  /** A pattern that does not outrank another is strictly narrower than it exactly if it
      stops at the catch-all of the other. */
  lemma ReportedPatternIsMostSpecific(best: string, other: string)
    ensures !Outranks(other, best) && StrictlyContains(best, other) <==> StopsAtCatchAll(best, other)
  {
    if StopsAtCatchAll(best, other) {
      StoppingIsNarrower(best, other);
    } else if StrictlyContains(best, other) {
      NarrowerOutranksExactly(best, other);
    }
  }
}

/** Route patterns: what they accept, and the syntactic containment test between them. */
module Patterns {
  import opened Paths

  datatype SegmentKind = Static | Param | CatchAll

  function ClassifySegment(segment: Segment): SegmentKind {
    if segment != "" && segment[0] == '*' then CatchAll
    else if segment != "" && segment[0] == ':' then Param
    else Static
  }

  // ---------------------------------------------------------------------
  // Requests
  // ---------------------------------------------------------------------

  /** Index of the first part with a star anywhere in it, or the length. */
  function WildcardIndex(parts: seq<Segment>): (i: nat)
    ensures i <= |parts|
    ensures forall k :: 0 <= k < i ==> '*' !in parts[k]
    ensures i < |parts| ==> '*' in parts[i]
  {
    if parts == [] then 0
    else if '*' in parts[0] then 0
    else 1 + WildcardIndex(parts[1..])
  }

  predicate SegmentMatches(pattern: Segment, part: Segment) {
    (pattern != "" && pattern[0] == ':') || pattern == part
  }

  predicate PrefixMatches(pattern: seq<Segment>, request: seq<Segment>, n: nat)
    requires n <= |pattern| && n <= |request|
  {
    forall k :: 0 <= k < n ==> SegmentMatches(pattern[k], request[k])
  }

  predicate PartsMatch(pattern: seq<Segment>, request: seq<Segment>) {
    var w := WildcardIndex(pattern);
    if w < |pattern| then |request| >= w && PrefixMatches(pattern, request, w)
    else |pattern| == |request| && PrefixMatches(pattern, request, |pattern|)
  }

  predicate PathMatchesPattern(pattern: string, path: string) {
    PartsMatch(RequestParts(pattern), RequestParts(path))
  }

  predicate StarsLead(parts: seq<Segment>) {
    forall k :: 0 <= k < |parts| ==> '*' in parts[k] ==> parts[k][0] == '*'
  }

  /** A star occurs in a segment only as its first character. */
  predicate WellFormed(pattern: string) {
    StarsLead(SplitPathSegments(pattern))
  }

  /** Every request accepted by candidate is accepted by earlier. */
  ghost predicate Includes(earlier: string, candidate: string) {
    forall path :: PathMatchesPattern(candidate, path) ==> PathMatchesPattern(earlier, path)
  }

  // ---------------------------------------------------------------------
  // The containment test
  // ---------------------------------------------------------------------

  datatype MatchingSemantics = MatchingSemantics(trailingSlashDistinct: bool)

  const IGNORE_TRAILING_SLASH := MatchingSemantics(false)

  predicate HasTrailingSlash(value: string) {
    |value| > 1 && value[|value| - 1] == '/'
  }

  predicate PrefixesCompatible(earlierPrefix: seq<Segment>, candidate: seq<Segment>) {
    |earlierPrefix| <= |candidate| &&
    forall k :: 0 <= k < |earlierPrefix| ==>
      var earlierKind := ClassifySegment(earlierPrefix[k]);
      var candidateKind := ClassifySegment(candidate[k]);
      candidateKind != CatchAll &&
      (earlierKind == Static ==> candidateKind == Static && earlierPrefix[k] == candidate[k])
  }

  /** The scan of the containment test, from segment i of earlier on. */
  predicate ContainsFrom(earlier: seq<Segment>, candidate: seq<Segment>, i: nat)
    requires i <= |earlier|
    decreases |earlier| - i
  {
    if i == |earlier| then |earlier| == |candidate|
    else if ClassifySegment(earlier[i]) == CatchAll then PrefixesCompatible(earlier[..i], candidate)
    else if i >= |candidate| then false
    else
      var earlierKind := ClassifySegment(earlier[i]);
      var candidateKind := ClassifySegment(candidate[i]);
      if candidateKind == CatchAll then false
      else if earlierKind == Static && candidateKind == Static then
        earlier[i] == candidate[i] && ContainsFrom(earlier, candidate, i + 1)
      else if earlierKind == Static then false
      else ContainsFrom(earlier, candidate, i + 1)
  }

  predicate ContainsWith(earlierPath: string, candidatePath: string, semantics: MatchingSemantics) {
    if semantics.trailingSlashDistinct && HasTrailingSlash(earlierPath) != HasTrailingSlash(candidatePath) then false
    else ContainsFrom(SplitPathSegments(earlierPath), SplitPathSegments(candidatePath), 0)
  }

  predicate Contains(earlierPath: string, candidatePath: string) {
    ContainsWith(earlierPath, candidatePath, IGNORE_TRAILING_SLASH)
  }

  /** broad takes every request of narrow, and not the other way round. */
  predicate StrictlyContains(broad: string, narrow: string) {
    Contains(broad, narrow) && !Contains(narrow, broad)
  }

  // ---------------------------------------------------------------------
  // What the test means, segment by segment
  // ---------------------------------------------------------------------

  function FirstCatchAll(parts: seq<Segment>): (i: nat)
    ensures i <= |parts|
    ensures forall k :: 0 <= k < i ==> ClassifySegment(parts[k]) != CatchAll
    ensures i < |parts| ==> ClassifySegment(parts[i]) == CatchAll
  {
    if parts == [] then 0
    else if ClassifySegment(parts[0]) == CatchAll then 0
    else 1 + FirstCatchAll(parts[1..])
  }

  predicate Covers(earlier: Segment, candidate: Segment) {
    ClassifySegment(candidate) != CatchAll && (ClassifySegment(earlier) == Static ==> earlier == candidate)
  }

  predicate CoversFirst(earlier: seq<Segment>, candidate: seq<Segment>, n: nat)
    requires n <= |earlier| && n <= |candidate|
  {
    forall k :: 0 <= k < n ==> Covers(earlier[k], candidate[k])
  }

  predicate CoversPattern(earlier: seq<Segment>, candidate: seq<Segment>) {
    var i := FirstCatchAll(earlier);
    if i < |earlier| then i <= |candidate| && CoversFirst(earlier, candidate, i)
    else |earlier| == |candidate| && CoversFirst(earlier, candidate, |earlier|)
  }

  lemma {:induction false} ContainsFromMeaning(earlier: seq<Segment>, candidate: seq<Segment>, i: nat)
    requires i <= FirstCatchAll(earlier) && i <= |candidate| && CoversFirst(earlier, candidate, i)
    ensures ContainsFrom(earlier, candidate, i) <==> CoversPattern(earlier, candidate)
    decreases |earlier| - i
  {
    var star := FirstCatchAll(earlier);
    if i < |earlier| && i < star && i < |candidate| && Covers(earlier[i], candidate[i]) {
      ContainsFromMeaning(earlier, candidate, i + 1);
    }
  }

  lemma ContainsMeaning(earlierPath: string, candidatePath: string)
    ensures Contains(earlierPath, candidatePath)
       <==> CoversPattern(SplitPathSegments(earlierPath), SplitPathSegments(candidatePath))
  {
    ContainsFromMeaning(SplitPathSegments(earlierPath), SplitPathSegments(candidatePath), 0);
  }

  /** The setting for trailing slashes: where they are distinct, containment also takes both
      paths, if longer than one character, to end in a slash or neither. */
  lemma ContainsWithExactly(p: string, q: string, distinct: bool)
    ensures ContainsWith(p, q, MatchingSemantics(distinct)) <==>
      && CoversPattern(SplitPathSegments(p), SplitPathSegments(q))
      && (distinct ==> (|p| > 1 && p[|p| - 1] == '/' <==> |q| > 1 && q[|q| - 1] == '/'))
  {
    ContainsMeaning(p, q);
  }

  /** A path and the same path with a slash at its end contain each other where trailing
      slashes are ignored, and neither contains the other where they are distinct. */
  lemma TrailingSlashTwins(p: string)
    requires p != "" && p[|p| - 1] != '/'
    ensures Contains(p, p + "/") && Contains(p + "/", p)
    ensures !ContainsWith(p, p + "/", MatchingSemantics(true)) && !ContainsWith(p + "/", p, MatchingSemantics(true))
  {
    TrailingSlashAddsNothing(p);
    ContainsReflexive(p, IGNORE_TRAILING_SLASH);
    hide SplitPathSegments;
    ContainsWithExactly(p, p + "/", true);
    ContainsWithExactly(p + "/", p, true);
  }

  lemma ContainsReflexive(path: string, semantics: MatchingSemantics)
    ensures ContainsWith(path, path, semantics)
  {
    ContainsMeaning(path, path);
  }

  lemma ContainsTransitive(a: string, b: string, c: string, semantics: MatchingSemantics)
    requires ContainsWith(a, b, semantics) && ContainsWith(b, c, semantics)
    ensures ContainsWith(a, c, semantics)
  {
    ContainsMeaning(a, b);
    ContainsMeaning(b, c);
    ContainsMeaning(a, c);
    CoversTransitive(SplitPathSegments(a), SplitPathSegments(b), SplitPathSegments(c));
  }

  lemma CoversTransitive(x: seq<Segment>, y: seq<Segment>, z: seq<Segment>)
    requires CoversPattern(x, y) && CoversPattern(y, z)
    ensures CoversPattern(x, z)
  {
    var i, j := FirstCatchAll(x), FirstCatchAll(y);
    assert i <= j && (i == |x| ==> j == |y|) by {
      assert j < |y| && j < i ==> Covers(x[j], y[j]);
    }
    forall k | 0 <= k < i
      ensures Covers(x[k], z[k])
    {
      assert Covers(x[k], y[k]) && Covers(y[k], z[k]);
    }
  }

  // ---------------------------------------------------------------------
  // Containment against inclusion
  // ---------------------------------------------------------------------

  /** What a well-formed pattern accepts, in terms of its segments. */
  predicate Accepts(pattern: seq<Segment>, request: seq<Segment>) {
    var i := FirstCatchAll(pattern);
    if i < |pattern| then i <= |request| && PrefixMatches(pattern, request, i)
    else if pattern == [] then request == [""]
    else |pattern| == |request| && PrefixMatches(pattern, request, |pattern|)
  }

  lemma {:induction false} StarsAgree(parts: seq<Segment>)
    requires StarsLead(parts)
    ensures WildcardIndex(parts) == FirstCatchAll(parts)
  {
    if parts != [] {
      StarsAgree(parts[1..]);
    }
  }

  lemma MatchMeaning(pattern: string, path: string)
    requires WellFormed(pattern)
    ensures PathMatchesPattern(pattern, path) <==> Accepts(SplitPathSegments(pattern), RequestParts(path))
  {
    var p := SplitPathSegments(pattern);
    if p == [] {
      assert RequestParts(pattern) == [""];
      assert WildcardIndex([""]) == 1;
    } else {
      StarsAgree(p);
    }
  }

  // What any pattern accepts, stars inside segments included, is decided by WildcardIndex.
  predicate Takes(pattern: seq<Segment>, request: seq<Segment>) {
    PartsMatch(if pattern == [] then [""] else pattern, request)
  }

  lemma TakesMeaning(pattern: string, path: string)
    ensures PathMatchesPattern(pattern, path) <==> Takes(SplitPathSegments(pattern), RequestParts(path))
  {
  }

  /** The candidate's first star, wherever it stands in its segment, ends it for matching
      before earlier is through with what it demands, although the test goes on. Only where
      every request of the candidate has one more segment anyway is one more demand harmless. */
  predicate Overclaims(e: seq<Segment>, c: seq<Segment>) {
    var i, k := WildcardIndex(e), WildcardIndex(c);
    && i > k
    && !(k < |c| && i == k + 1 < |e| && (k == 0 || c[k - 1] == ""))
  }

  predicate OverclaimsBetween(earlier: string, candidate: string) {
    Overclaims(SplitPathSegments(earlier), SplitPathSegments(candidate))
  }

  lemma StarsComeFirst(parts: seq<Segment>)
    ensures WildcardIndex(parts) <= FirstCatchAll(parts)
  {
    var i := FirstCatchAll(parts);
    assert i < |parts| ==> '*' in parts[i];
  }

  lemma CoveredSegmentIsTaken(e: seq<Segment>, c: seq<Segment>, r: seq<Segment>, m: nat)
    requires CoversPattern(e, c) && m < WildcardIndex(e) && m < |c| && m < |r|
    requires m < WildcardIndex(c) ==> SegmentMatches(c[m], r[m])
    requires m >= WildcardIndex(c) ==> m == WildcardIndex(c) < |c|
    ensures SegmentMatches(e[m], r[m])
  {
    StarsComeFirst(e);
    assert Covers(e[m], c[m]);
  }

  /** What earlier demands before its first star stands inside the candidate, and without a
      star both are equally long. */
  lemma CoveredStarts(e: seq<Segment>, c: seq<Segment>)
    requires CoversPattern(e, c)
    ensures WildcardIndex(e) <= |c| && (WildcardIndex(e) == |e| ==> |e| == |c|)
  {
    StarsComeFirst(e);
  }

  /** A request cannot end in an empty segment, so it has one more after one. */
  lemma TakenIsLongEnough(e: seq<Segment>, c: seq<Segment>, r: seq<Segment>)
    requires c != [] && CoversPattern(e, c) && !Overclaims(e, c) && Trimmed(c) && Takes(c, r)
    requires r == [""] || (r != [] && Trimmed(r))
    ensures WildcardIndex(e) <= |r| && WildcardIndex(e) <= |c|
  {
    CoveredStarts(e, c);
    var i, k := WildcardIndex(e), WildcardIndex(c);
    hide CoversPattern, WildcardIndex, SlashFree;
    if i > k && k > 0 {
      assert SegmentMatches(c[k - 1], r[k - 1]);
    }
  }

  lemma CoveredIsTaken(e: seq<Segment>, c: seq<Segment>, r: seq<Segment>)
    requires CoversPattern(e, c) && !Overclaims(e, c) && Trimmed(c) && Takes(c, r)
    requires r == [""] || (r != [] && Trimmed(r))
    ensures Takes(e, r)
  {
    assert WildcardIndex([""]) == 1;
    if c == [] {
      StarsComeFirst(e);
    } else {
      TakenIsLongEnough(e, c, r);
      forall m | 0 <= m < WildcardIndex(e)
        ensures SegmentMatches(e[m], r[m])
      {
        CoveredSegmentIsTaken(e, c, r, m);
      }
      CoveredStarts(e, c);
      hide CoversPattern, Trimmed, SegmentMatches, WildcardIndex, FirstCatchAll;
    }
  }

  /** A request of the candidate that stops as early as it can, or avoids earlier's length. */
  function OverclaimWitness(e: seq<Segment>, c: seq<Segment>): (w: seq<Segment>) {
    var k := WildcardIndex(c);
    var length := if k > 0 && c[k - 1] != "" then k else if |e| == k + 1 then k + 2 else k + 1;
    seq(length, m => if 0 <= m < k && ClassifySegment(c[m]) != Param then c[m] else "x")
  }

  lemma OverclaimWitnessIsTrimmed(e: seq<Segment>, c: seq<Segment>)
    requires Trimmed(c) && WildcardIndex(c) < |c|
    ensures var w := OverclaimWitness(e, c); w != [] && Trimmed(w)
  {
    var w, k := OverclaimWitness(e, c), WildcardIndex(c);
    hide WildcardIndex, ClassifySegment;
    forall m | 0 <= m < |w|
      ensures '/' !in w[m]
    {
      assert w[m] == "x" || (m < k && w[m] == c[m]);
    }
    var last := |w| - 1;
    assert w[0] == "x" || w[0] == c[0];
    assert w[last] == "x" || (last == k - 1 && w[last] == c[k - 1] != "");
  }

  lemma OverclaimWitnessIsTaken(e: seq<Segment>, c: seq<Segment>)
    requires WildcardIndex(c) < |c|
    ensures Takes(c, OverclaimWitness(e, c))
  {
    hide WildcardIndex;
    assert PrefixMatches(c, OverclaimWitness(e, c), WildcardIndex(c));
  }

  /** The witness is too short for earlier, or has another length. */
  lemma OverclaimWitnessIsRefused(e: seq<Segment>, c: seq<Segment>)
    requires Overclaims(e, c) && WildcardIndex(c) < |c|
    ensures !Takes(e, OverclaimWitness(e, c))
  {
    hide WildcardIndex, PrefixMatches, ClassifySegment;
  }

  lemma OverclaimIsRefused(e: seq<Segment>, c: seq<Segment>)
    requires CoversPattern(e, c) && Overclaims(e, c) && Trimmed(c)
    ensures var w := OverclaimWitness(e, c); w != [] && Trimmed(w) && Takes(c, w) && !Takes(e, w)
  {
    CoveredStarts(e, c);
    hide CoversPattern, Trimmed, Takes, OverclaimWitness;
    OverclaimWitnessIsTrimmed(e, c);
    OverclaimWitnessIsTaken(e, c);
    OverclaimWitnessIsRefused(e, c);
  }

  /** A positive containment test is right exactly if the candidate's first star does not
      come too early: stars inside segments end a pattern for matching, and not for the test. */
  lemma ContainmentIsSoundExactly(earlier: string, candidate: string)
    requires Contains(earlier, candidate)
    ensures Includes(earlier, candidate) <==> !OverclaimsBetween(earlier, candidate)
  {
    var e, c := SplitPathSegments(earlier), SplitPathSegments(candidate);
    ContainsMeaning(earlier, candidate);
    SegmentsAreTrimmed(candidate);
    hide CoversPattern, Overclaims, Takes, PathMatchesPattern, ContainsWith, SplitPathSegments;
    if Overclaims(e, c) {
      OverclaimIsRefused(e, c);
      var w := OverclaimWitness(e, c);
      PathOfSegments(w);
      TakesMeaning(candidate, Join(w));
      TakesMeaning(earlier, Join(w));
    } else {
      forall path | PathMatchesPattern(candidate, path)
        ensures PathMatchesPattern(earlier, path)
      {
        SegmentsAreTrimmed(path);
        TakesMeaning(candidate, path);
        TakesMeaning(earlier, path);
        CoveredIsTaken(e, c, RequestParts(path));
      }
    }
  }

  lemma WellFormedNeverOverclaims(e: seq<Segment>, c: seq<Segment>)
    requires StarsLead(c) && CoversPattern(e, c)
    ensures !Overclaims(e, c)
  {
    StarsAgree(c);
    StarsComeFirst(e);
    var i, k := FirstCatchAll(e), FirstCatchAll(c);
    assert k < |c| && k < i ==> Covers(e[k], c[k]);
  }

  /** Containment never claims a request that the earlier pattern would refuse.
      Only the candidate has to be well formed. */
  lemma ContainmentIsSound(earlier: string, candidate: string)
    requires WellFormed(candidate) && Contains(earlier, candidate)
    ensures Includes(earlier, candidate)
  {
    ContainsMeaning(earlier, candidate);
    WellFormedNeverOverclaims(SplitPathSegments(earlier), SplitPathSegments(candidate));
    ContainmentIsSoundExactly(earlier, candidate);
  }

  /** The patterns on which containment is too cautious. The candidate accepts no
      request without one more segment after the prefix both agree on, because the
      root path has one empty part and a trimmed path cannot end in an empty one,
      and earlier spends a parameter on exactly that segment. */
  predicate ForcedSegment(e: seq<Segment>, c: seq<Segment>) {
    var i, k := FirstCatchAll(e), FirstCatchAll(c);
    if c == [] then i == 1 && ClassifySegment(e[0]) == Param
    else
      && k < |c| && i < |e| && i == k + 1
      && (k == 0 || c[k - 1] == "")
      && ClassifySegment(e[k]) == Param
      && CoversFirst(e, c, k)
  }

  predicate ForcedBetween(earlier: string, candidate: string) {
    ForcedSegment(SplitPathSegments(earlier), SplitPathSegments(candidate))
  }

  lemma ForcedSegmentIsAccepted(e: seq<Segment>, c: seq<Segment>, r: seq<Segment>)
    requires ForcedSegment(e, c) && Trimmed(c) && Accepts(c, r)
    requires r == [""] || (r != [] && Trimmed(r))
    ensures Accepts(e, r)
  {
    var k := FirstCatchAll(c);
    if c != [] {
      assert |r| > k by {
        assert k > 0 ==> SegmentMatches(c[k - 1], r[k - 1]);
      }
      forall m | 0 <= m < k + 1
        ensures SegmentMatches(e[m], r[m])
      {
        assert m < k ==> Covers(e[m], c[m]) && SegmentMatches(c[m], r[m]);
      }
    }
  }

  lemma ForcedSegmentIsIncluded(earlier: string, candidate: string)
    requires WellFormed(earlier) && WellFormed(candidate) && ForcedBetween(earlier, candidate)
    ensures Includes(earlier, candidate) && !Contains(earlier, candidate)
  {
    var e, c := SplitPathSegments(earlier), SplitPathSegments(candidate);
    ContainsMeaning(earlier, candidate);
    ForcedSegmentIsNotCovered(e, c);
    SegmentsAreTrimmed(candidate);
    forall path | PathMatchesPattern(candidate, path)
      ensures PathMatchesPattern(earlier, path)
    {
      SegmentsAreTrimmed(path);
      MatchMeaning(candidate, path);
      MatchMeaning(earlier, path);
      ForcedSegmentIsAccepted(e, c, RequestParts(path));
    }
  }

  lemma ForcedSegmentIsNotCovered(e: seq<Segment>, c: seq<Segment>)
    requires ForcedSegment(e, c)
    ensures !CoversPattern(e, c)
  {
    var k := FirstCatchAll(c);
    assert c != [] ==> !Covers(e[k], c[k]);
  }

  /** A request of candidate with n segments that agrees with earlier only where it must. */
  function Witness(e: seq<Segment>, c: seq<Segment>, n: nat): (w: seq<Segment>)
    requires SlashFree(e) && SlashFree(c)
    ensures |w| == n && SlashFree(w)
    ensures forall k :: 0 <= k < n ==>
      if k < FirstCatchAll(c) && ClassifySegment(c[k]) == Static then w[k] == c[k]
      else w[k] != "" && (k < |e| ==> w[k] != e[k])
  {
    seq(n, k requires 0 <= k < n =>
      if k < FirstCatchAll(c) && ClassifySegment(c[k]) == Static then c[k]
      else if k < |e| then e[k] + "x" else "x")
  }

  /** How long a request must be to tell the two patterns apart. */
  function WitnessLength(e: seq<Segment>, c: seq<Segment>): nat {
    var i, k := FirstCatchAll(e), FirstCatchAll(c);
    if k == |c| then k
    else if i == |e| then (if |e| > k then |e| else k) + 1
    else if i == k + 1 && k >= 1 && c[k - 1] != "" then k
    else k + 1
  }

  lemma WitnessIsRefused(e: seq<Segment>, c: seq<Segment>)
    requires Trimmed(e) && Trimmed(c) && c != []
    requires !CoversPattern(e, c) && !ForcedSegment(e, c)
    ensures var w := Witness(e, c, WitnessLength(e, c));
            w != [] && Trimmed(w) && Accepts(c, w) && !Accepts(e, w)
  {
    var w := Witness(e, c, WitnessLength(e, c));
    var i, k := FirstCatchAll(e), FirstCatchAll(c);
    assert Trimmed(w);
    assert PrefixMatches(c, w, k);
    forall m | 0 <= m < i && m < k && m < |w| && SegmentMatches(e[m], w[m])
      ensures Covers(e[m], c[m])
    {
    }
    assert Accepts(e, w) ==> forall m :: 0 <= m < i ==> SegmentMatches(e[m], w[m]);
  }

  lemma RefusedRequest(earlier: string, candidate: string) returns (path: string)
    requires WellFormed(earlier) && WellFormed(candidate)
    requires !Contains(earlier, candidate) && !ForcedBetween(earlier, candidate)
    ensures PathMatchesPattern(candidate, path) && !PathMatchesPattern(earlier, path)
  {
    var e, c := SplitPathSegments(earlier), SplitPathSegments(candidate);
    ContainsMeaning(earlier, candidate);
    SegmentsAreTrimmed(earlier);
    SegmentsAreTrimmed(candidate);
    if c == [] {
      path := candidate;
      RootIsRefused(e);
    } else {
      WitnessIsRefused(e, c);
      var w := Witness(e, c, WitnessLength(e, c));
      PathOfSegments(w);
      path := Join(w);
    }
    MatchMeaning(candidate, path);
    MatchMeaning(earlier, path);
  }

  lemma RootIsRefused(e: seq<Segment>)
    requires Trimmed(e) && !CoversPattern(e, []) && !ForcedSegment(e, [])
    ensures !Accepts(e, [""])
  {
    assert e != [] ==> e[0] != "" && SegmentMatches(e[0], "") == (ClassifySegment(e[0]) == Param);
  }

  /** The containment test decides inclusion of request sets exactly off ForcedSegment;
      there inclusion holds and the test says no. */
  lemma ContainmentDecidesInclusion(earlier: string, candidate: string)
    requires WellFormed(earlier) && WellFormed(candidate)
    ensures Contains(earlier, candidate) ==> Includes(earlier, candidate)
    ensures (Contains(earlier, candidate) <==> Includes(earlier, candidate)) <==> !ForcedBetween(earlier, candidate)
  {
    if ForcedBetween(earlier, candidate) {
      ForcedSegmentIsIncluded(earlier, candidate);
    } else if Contains(earlier, candidate) {
      ContainmentIsSound(earlier, candidate);
    } else {
      var path := RefusedRequest(earlier, candidate);
    }
  }

  /** A pattern cut at its first star, wherever it stands in its segment: what matching
      makes of it. */
  function Cut(parts: seq<Segment>): seq<Segment> {
    var i := WildcardIndex(parts);
    if i < |parts| then parts[..i] + ["*"] else parts
  }

  lemma CutIsWellFormed(parts: seq<Segment>)
    requires Trimmed(parts)
    ensures Trimmed(Cut(parts)) && StarsLead(Cut(parts)) && (Cut(parts) == [] <==> parts == [])
    ensures WildcardIndex(Cut(parts)) == WildcardIndex(parts)
  {
    var i, cut := WildcardIndex(parts), Cut(parts);
    assert forall k :: 0 <= k < i ==> cut[k] == parts[k];
    assert i < |parts| ==> cut[i] == "*" && '*' in cut[i];
  }

  lemma CutTakesTheSame(parts: seq<Segment>, r: seq<Segment>)
    requires Trimmed(parts)
    ensures Takes(Cut(parts), r) <==> Takes(parts, r)
  {
    CutIsWellFormed(parts);
    hide StarsLead, SegmentMatches;
    var i, cut := WildcardIndex(parts), Cut(parts);
    assert forall k :: 0 <= k < i ==> cut[k] == parts[k];
  }

  lemma CutPath(path: string) returns (cut: string)
    ensures SplitPathSegments(cut) == Cut(SplitPathSegments(path)) && WellFormed(cut)
    ensures forall request :: PathMatchesPattern(cut, request) <==> PathMatchesPattern(path, request)
  {
    var parts := SplitPathSegments(path);
    SegmentsAreTrimmed(path);
    CutIsWellFormed(parts);
    if parts == [] {
      cut := path;
    } else {
      cut := Join(Cut(parts));
      PathOfSegments(Cut(parts));
    }
    hide Takes, PathMatchesPattern, Trimmed, SplitPathSegments;
    forall request
      ensures PathMatchesPattern(cut, request) <==> PathMatchesPattern(path, request)
    {
      TakesMeaning(cut, request);
      TakesMeaning(path, request);
      CutTakesTheSame(parts, RequestParts(request));
    }
  }

  /** Inclusion of any two patterns, well formed or not, can be read off their segments: it
      is the covering of the patterns cut at their first stars, or the forced segment. */
  lemma InclusionDecided(earlier: string, candidate: string)
    ensures var e, c := Cut(SplitPathSegments(earlier)), Cut(SplitPathSegments(candidate));
      Includes(earlier, candidate) <==> CoversPattern(e, c) || ForcedSegment(e, c)
  {
    hide CoversPattern, ForcedSegment, PathMatchesPattern, WellFormed, Cut, SplitPathSegments;
    var e := CutPath(earlier);
    var c := CutPath(candidate);
    assert Includes(earlier, candidate) <==> Includes(e, c);
    ContainsMeaning(e, c);
    ContainmentDecidesInclusion(e, c);
    if ForcedBetween(e, c) {
      ForcedSegmentIsIncluded(e, c);
    }
  }

  /** A candidate other than the root path on which the test misses an inclusion. */
  lemma ContainmentMissesAnInclusion(earlier: string, candidate: string)
    requires earlier == "/:section/*rest" && candidate == "/*all"
    ensures Includes(earlier, candidate) && !Contains(earlier, candidate)
  {
    RootedPathOfTwo(":section", "*rest", earlier);
    RootedPathOfOne("*all", candidate);
    ForcedSegmentIsIncluded(earlier, candidate);
  }

  /** Without well-formed candidates containment can claim too much: the star inside
      a segment is a wildcard for matching and a static character for the test. */
  lemma ContainmentNeedsWellFormedCandidates(earlier: string, candidate: string, path: string)
    requires earlier == "/:name" && candidate == "/a*b" && path == "/x/y"
    ensures Contains(earlier, candidate)
    ensures PathMatchesPattern(candidate, path) && !PathMatchesPattern(earlier, path)
  {
    RootedPathOfOne(":name", earlier);
    RootedPathOfOne("a*b", candidate);
    RootedPathOfTwo("x", "y", path);
    ContainsMeaning(earlier, candidate);
  }
}

/** When two declared paths are reported as ambiguous. */
module PathConflicts {
  import opened Paths
  import opened Patterns
  import opened Wrappers

  datatype PathConflictMode = Strict | PreferStatic

  datatype ConflictReason = DuplicateRoute | CatchAllSegment | StaticAgainstWildcard | WildcardPair

  datatype Conflict = Conflict(reason: ConflictReason, index: int, existingSegment: Segment, newSegment: Segment)
  {
    function Mirror(): Conflict {
      Conflict(reason, index, newSegment, existingSegment)
    }
  }

  // What can be seen at one index shared by two paths.
  datatype Feature = StaticClash | Star | StaticParamSibling | ParamPair

  predicate Shows(f: Feature, existing: Segment, new_: Segment) {
    var left, right := ClassifySegment(existing), ClassifySegment(new_);
    match f
    case StaticClash => left == Static && right == Static && existing != new_
    case Star => left == CatchAll || right == CatchAll
    case StaticParamSibling => (left == Static && right == Param) || (left == Param && right == Static)
    case ParamPair => left == Param && right == Param
  }

  /** First shared index with the feature, or the number of shared indexes. */
  function First(f: Feature, e: seq<Segment>, n: seq<Segment>): (i: nat)
    ensures i <= Min(|e|, |n|)
    ensures forall k :: 0 <= k < i ==> !Shows(f, e[k], n[k])
    ensures i < Min(|e|, |n|) ==> Shows(f, e[i], n[i])
  {
    if e == [] || n == [] || Shows(f, e[0], n[0]) then 0 else 1 + First(f, e[1..], n[1..])
  }

  function At(reason: ConflictReason, e: seq<Segment>, n: seq<Segment>, i: nat): Option<Conflict>
    requires i < |e| && i < |n|
  {
    Some(Conflict(reason, i, e[i], n[i]))
  }

  /** What detectPathConflict answers for two segment lists. */
  function SegmentConflict(e: seq<Segment>, n: seq<Segment>, mode: PathConflictMode, enforceCatchAll: bool): Option<Conflict>
  {
    var shared := Min(|e|, |n|);
    var clash, star := First(StaticClash, e, n), First(Star, e, n);
    if enforceCatchAll && star < shared && star < clash then At(CatchAllSegment, e, n, star)
    else if clash < shared || |e| != |n| then None
    else if First(StaticParamSibling, e, n) < shared then
      (if mode == PreferStatic then None
       else At(StaticAgainstWildcard, e, n, First(StaticParamSibling, e, n)))
    else if First(ParamPair, e, n) < shared then At(WildcardPair, e, n, First(ParamPair, e, n))
    else None
  }

  function PathConflict(existing: string, new_: string, mode: PathConflictMode, enforceCatchAll: bool): Option<Conflict> {
    SegmentConflict(SplitPathSegments(existing), SplitPathSegments(new_), mode, enforceCatchAll)
  }

  method DetectPathConflict(existingPath: string, newPath: string, mode: PathConflictMode, enforceCatchAll: bool)
    returns (conflict: Option<Conflict>)
    ensures conflict == PathConflict(existingPath, newPath, mode, enforceCatchAll)
  {
    conflict := ScanSegments(SplitPathSegments(existingPath), SplitPathSegments(newPath), mode, enforceCatchAll);
  }

  /** The single left-to-right scan that remembers the first pair of each kind. */
  method ScanSegments(existing: seq<Segment>, new_: seq<Segment>, mode: PathConflictMode, enforceCatchAll: bool)
    returns (conflict: Option<Conflict>)
    ensures conflict == SegmentConflict(existing, new_, mode, enforceCatchAll)
  {
    var shared := Min(|existing|, |new_|);
    ghost var clash, star := First(StaticClash, existing, new_), First(Star, existing, new_);
    ghost var pair, sibling := First(ParamPair, existing, new_), First(StaticParamSibling, existing, new_);
    var firstParamPair, firstStaticParam := -1, -1;
    for i := 0 to shared
      invariant i <= clash && (enforceCatchAll ==> i <= star)
      invariant firstParamPair == if pair < i then pair else -1
      invariant firstStaticParam == if sibling < i then sibling else -1
    {
      var existingKind, newKind := ClassifySegment(existing[i]), ClassifySegment(new_[i]);
      if existingKind == Static && newKind == Static {
        if existing[i] != new_[i] {
          assert Shows(StaticClash, existing[i], new_[i]) && clash == i;
          return None;
        }
      } else if (existingKind == CatchAll || newKind == CatchAll) && enforceCatchAll {
        assert Shows(Star, existing[i], new_[i]) && star == i;
        return Some(Conflict(CatchAllSegment, i, existing[i], new_[i]));
      } else if existingKind == Param && newKind == Param {
        if firstParamPair == -1 {
          firstParamPair := i;
        }
      } else if Shows(StaticParamSibling, existing[i], new_[i]) && firstStaticParam == -1 {
        firstStaticParam := i;
      }
    }
    if |existing| != |new_| {
      return None;
    }
    if firstStaticParam != -1 {
      if mode == PreferStatic {
        return None;
      }
      return Some(Conflict(StaticAgainstWildcard, firstStaticParam, existing[firstStaticParam], new_[firstStaticParam]));
    }
    if firstParamPair == -1 {
      return None;
    }
    return Some(Conflict(WildcardPair, firstParamPair, existing[firstParamPair], new_[firstParamPair]));
  }

  // ---------------------------------------------------------------------
  // What is reported
  // ---------------------------------------------------------------------

  /** One of the two segments at the index is a catch-all. */
  predicate StarAt(e: seq<Segment>, n: seq<Segment>, k: nat)
    requires k < |e| && k < |n|
  {
    (e[k] != "" && e[k][0] == '*') || (n[k] != "" && n[k][0] == '*')
  }

  /** Both are parameters. */
  predicate PairAt(e: seq<Segment>, n: seq<Segment>, k: nat)
    requires k < |e| && k < |n|
  {
    e[k] != "" && e[k][0] == ':' && n[k] != "" && n[k][0] == ':'
  }

  /** One is a parameter and the other neither a parameter nor a catch-all. */
  predicate SiblingAt(e: seq<Segment>, n: seq<Segment>, k: nat)
    requires k < |e| && k < |n|
  {
    !StarAt(e, n, k) && !PairAt(e, n, k) && ((e[k] != "" && e[k][0] == ':') || (n[k] != "" && n[k][0] == ':'))
  }

  /** A reported conflict names the segments at its index. With catch-alls enforced the first
      catch-all is reported whatever else there is; otherwise the first static segment beside
      a parameter, in strict mode; and the first pair of parameters only if there is no such
      segment anywhere. */
  lemma ReportMeaning(p: string, q: string, mode: PathConflictMode, enforceCatchAll: bool, c: Conflict)
    requires PathConflict(p, q, mode, enforceCatchAll) == Some(c)
    ensures var e, n := SplitPathSegments(p), SplitPathSegments(q);
      && 0 <= c.index < |e| && c.index < |n| && c.existingSegment == e[c.index] && c.newSegment == n[c.index]
      && c.reason != DuplicateRoute
      && (c.reason == CatchAllSegment <==>
            enforceCatchAll && exists k :: 0 <= k < |e| && k < |n| && StarAt(e, n, k))
      && (c.reason == CatchAllSegment ==> StarAt(e, n, c.index) && forall k :: 0 <= k < c.index ==> !StarAt(e, n, k))
      && (c.reason == StaticAgainstWildcard ==>
            mode == Strict && |e| == |n| && SiblingAt(e, n, c.index) && forall k :: 0 <= k < c.index ==> !SiblingAt(e, n, k))
      && (c.reason == WildcardPair ==>
            |e| == |n| && PairAt(e, n, c.index) && (forall k :: 0 <= k < c.index ==> !PairAt(e, n, k))
            && forall k :: 0 <= k < |e| ==> !SiblingAt(e, n, k))
  {
    var e, n := SplitPathSegments(p), SplitPathSegments(q);
    hide SplitPathSegments;
    SegmentReport(e, n, mode, enforceCatchAll, c);
  }

  lemma FeaturesSeen(e: seq<Segment>, n: seq<Segment>, k: nat)
    requires k < |e| && k < |n|
    ensures Shows(Star, e[k], n[k]) <==> StarAt(e, n, k)
    ensures Shows(ParamPair, e[k], n[k]) <==> PairAt(e, n, k)
    ensures Shows(StaticParamSibling, e[k], n[k]) <==> SiblingAt(e, n, k)
  {
  }

  lemma SegmentReport(e: seq<Segment>, n: seq<Segment>, mode: PathConflictMode, enforceCatchAll: bool, c: Conflict)
    requires SegmentConflict(e, n, mode, enforceCatchAll) == Some(c)
    ensures 0 <= c.index < |e| && c.index < |n| && c.existingSegment == e[c.index] && c.newSegment == n[c.index]
    ensures c.reason != DuplicateRoute
    ensures c.reason == CatchAllSegment <==>
      enforceCatchAll && exists k :: 0 <= k < |e| && k < |n| && StarAt(e, n, k)
    ensures c.reason == CatchAllSegment ==> StarAt(e, n, c.index) && forall k :: 0 <= k < c.index ==> !StarAt(e, n, k)
    ensures c.reason == StaticAgainstWildcard ==>
      mode == Strict && |e| == |n| && SiblingAt(e, n, c.index) && forall k :: 0 <= k < c.index ==> !SiblingAt(e, n, k)
    ensures c.reason == WildcardPair ==>
      |e| == |n| && PairAt(e, n, c.index) && (forall k :: 0 <= k < c.index ==> !PairAt(e, n, k))
      && forall k :: 0 <= k < |e| ==> !SiblingAt(e, n, k)
  {
    forall k | 0 <= k < |e| && k < |n|
      ensures Shows(Star, e[k], n[k]) <==> StarAt(e, n, k)
      ensures Shows(ParamPair, e[k], n[k]) <==> PairAt(e, n, k)
      ensures Shows(StaticParamSibling, e[k], n[k]) <==> SiblingAt(e, n, k)
    {
      FeaturesSeen(e, n, k);
    }
    hide Shows, StarAt, PairAt, SiblingAt;
    var star := First(Star, e, n);
    if k :| 0 <= k < |e| && k < |n| && StarAt(e, n, k) {
      assert star < Min(|e|, |n|);
    }
  }

  // ---------------------------------------------------------------------
  // Symmetry
  // ---------------------------------------------------------------------

  lemma {:induction false} FirstSymmetric(f: Feature, e: seq<Segment>, n: seq<Segment>)
    ensures First(f, e, n) == First(f, n, e)
  {
    if e != [] && n != [] && !Shows(f, e[0], n[0]) {
      FirstSymmetric(f, e[1..], n[1..]);
    }
  }

  /** Which of the two routes was declared first does not matter: the same index is
      reported for the same reason, with the two segments exchanged. */
  lemma ConflictIsSymmetric(p: string, q: string, mode: PathConflictMode, enforceCatchAll: bool)
    ensures var there, back := PathConflict(p, q, mode, enforceCatchAll), PathConflict(q, p, mode, enforceCatchAll);
            there == (if back.Some? then Some(back.value.Mirror()) else None)
  {
    var e, n := SplitPathSegments(p), SplitPathSegments(q);
    FirstSymmetric(StaticClash, e, n);
    FirstSymmetric(Star, e, n);
    FirstSymmetric(StaticParamSibling, e, n);
    FirstSymmetric(ParamPair, e, n);
  }

  // ---------------------------------------------------------------------
  // Conflicts against overlapping request sets
  // ---------------------------------------------------------------------

  /** The adapter's reading of a pattern: a catch-all takes one or more segments,
      and whatever stands behind it is never looked at. */
  predicate AdapterAccepts(p: seq<Segment>, r: seq<Segment>) {
    var i := FirstCatchAll(p);
    (if i < |p| then i < |r| else |p| == |r|) && PrefixMatches(p, r, i)
  }

  predicate Serves(pattern: string, path: string) {
    AdapterAccepts(SplitPathSegments(pattern), SplitPathSegments(path))
  }

  ghost predicate Overlap(p: string, q: string) {
    exists path :: Serves(p, path) && Serves(q, path)
  }

  predicate AllStatic(parts: seq<Segment>) {
    forall k :: 0 <= k < |parts| ==> ClassifySegment(parts[k]) == Static
  }

  /** The same static path, written with or without slashes at the ends. */
  predicate StaticTwins(p: string, q: string) {
    SplitPathSegments(p) == SplitPathSegments(q) && AllStatic(SplitPathSegments(p))
  }

  predicate HasCatchAll(path: string) {
    var parts := SplitPathSegments(path);
    exists k :: 0 <= k < |parts| && ClassifySegment(parts[k]) == CatchAll
  }

  predicate HasParameter(path: string) {
    var parts := SplitPathSegments(path);
    exists k :: 0 <= k < |parts| && ClassifySegment(parts[k]) == Param
  }

  /** No position before both first catch-alls holds two different static segments,
      and neither pattern is too short for the other. */
  predicate Compatible(e: seq<Segment>, n: seq<Segment>) {
    var i, k := FirstCatchAll(e), FirstCatchAll(n);
    && First(StaticClash, e, n) >= Min(i, k)
    && (i == |e| && k == |n| ==> |e| == |n|)
    && (i == |e| && k < |n| ==> k < |e|)
    && (i < |e| && k == |n| ==> i < |n|)
  }

  function CommonRequest(e: seq<Segment>, n: seq<Segment>): (w: seq<Segment>) {
    var i, k := FirstCatchAll(e), FirstCatchAll(n);
    var length := if i == |e| then i else if k == |n| then k else (if i < k then k else i) + 1;
    seq(length, m =>
      if 0 <= m < i && ClassifySegment(e[m]) == Static then e[m]
      else if 0 <= m < k && ClassifySegment(n[m]) == Static then n[m]
      else "x")
  }

  /** Every segment of the common request is a placeholder or taken from a pattern. */
  lemma RequestSegment(e: seq<Segment>, n: seq<Segment>, m: nat)
    requires m < |CommonRequest(e, n)|
    ensures var w := CommonRequest(e, n);
      w[m] == "x" || (m < FirstCatchAll(e) && w[m] == e[m]) || (m < FirstCatchAll(n) && w[m] == n[m])
  {
    hide ClassifySegment;
  }

  /** If its last segment is taken from a pattern, it is the last one there too. */
  lemma LastSegment(e: seq<Segment>, n: seq<Segment>)
    requires Compatible(e, n) && CommonRequest(e, n) != []
    ensures var last := |CommonRequest(e, n)| - 1;
      (last < FirstCatchAll(e) ==> last == |e| - 1) && (last < FirstCatchAll(n) ==> last == |n| - 1)
  {
    hide First, FirstCatchAll;
  }

  lemma CommonRequestIsTrimmed(e: seq<Segment>, n: seq<Segment>)
    requires Trimmed(e) && Trimmed(n) && Compatible(e, n)
    ensures Trimmed(CommonRequest(e, n))
  {
    var w := CommonRequest(e, n);
    hide CommonRequest, Compatible;
    forall m | 0 <= m < |w|
      ensures '/' !in w[m]
    {
      RequestSegment(e, n, m);
    }
    if w != [] {
      RequestSegment(e, n, 0);
      RequestSegment(e, n, |w| - 1);
      LastSegment(e, n);
    }
  }

  lemma CommonRequestIsServed(e: seq<Segment>, n: seq<Segment>)
    requires Compatible(e, n)
    ensures AdapterAccepts(e, CommonRequest(e, n)) && AdapterAccepts(n, CommonRequest(e, n))
  {
    var w := CommonRequest(e, n);
    var i, k := FirstCatchAll(e), FirstCatchAll(n);
    forall m | 0 <= m < i
      ensures SegmentMatches(e[m], w[m])
    {
    }
    forall m | 0 <= m < k
      ensures SegmentMatches(n[m], w[m])
    {
      assert m < i ==> !Shows(StaticClash, e[m], n[m]);
    }
  }

  lemma OverlapMeansCompatible(e: seq<Segment>, n: seq<Segment>, r: seq<Segment>)
    requires AdapterAccepts(e, r) && AdapterAccepts(n, r)
    ensures Compatible(e, n)
  {
    var least := Min(FirstCatchAll(e), FirstCatchAll(n));
    assert forall m :: 0 <= m < least ==> SegmentMatches(e[m], r[m]) && SegmentMatches(n[m], r[m]);
    assert forall m :: 0 <= m < least ==> !Shows(StaticClash, e[m], n[m]);
  }

  lemma OverlapMeaning(p: string, q: string)
    ensures Overlap(p, q) <==> Compatible(SplitPathSegments(p), SplitPathSegments(q))
  {
    var e, n := SplitPathSegments(p), SplitPathSegments(q);
    if path :| Serves(p, path) && Serves(q, path) {
      OverlapMeansCompatible(e, n, SplitPathSegments(path));
    }
    if Compatible(e, n) {
      SegmentsAreTrimmed(p);
      SegmentsAreTrimmed(q);
      CommonRequestIsServed(e, n);
      CommonRequestIsTrimmed(e, n);
      var w := CommonRequest(e, n);
      if w == [] {
        assert AdapterAccepts(e, []) ==> e == [];
        assert Serves(p, p) && Serves(q, p);
      } else {
        PathOfSegments(w);
        assert Serves(p, Join(w)) && Serves(q, Join(w));
      }
    }
  }

  lemma FirstStarMeaning(e: seq<Segment>, n: seq<Segment>)
    ensures First(Star, e, n) == Min(Min(FirstCatchAll(e), FirstCatchAll(n)), Min(|e|, |n|))
  {
    var i, k, star := FirstCatchAll(e), FirstCatchAll(n), First(Star, e, n);
    assert star < Min(|e|, |n|) ==> Shows(Star, e[star], n[star]);
    assert i < |e| && i < |n| ==> Shows(Star, e[i], n[i]);
    assert k < |n| && k < |e| ==> Shows(Star, e[k], n[k]);
  }

  lemma ClashIsNoStar(e: seq<Segment>, n: seq<Segment>)
    ensures First(StaticClash, e, n) == First(Star, e, n) ==> First(Star, e, n) == Min(|e|, |n|)
  {
    var at := First(Star, e, n);
    assert at < Min(|e|, |n|) ==> !Shows(StaticClash, e[at], n[at]);
  }

  lemma ConflictWithStars(e: seq<Segment>, n: seq<Segment>, mode: PathConflictMode)
    requires FirstCatchAll(e) < |e| || FirstCatchAll(n) < |n|
    ensures SegmentConflict(e, n, mode, true).Some? <==> Compatible(e, n)
  {
    FirstStarMeaning(e, n);
    ClashIsNoStar(e, n);
    hide First, FirstCatchAll;
  }

  lemma ConflictWithoutStars(e: seq<Segment>, n: seq<Segment>, mode: PathConflictMode, enforceCatchAll: bool)
    requires FirstCatchAll(e) == |e| && FirstCatchAll(n) == |n|
    ensures SegmentConflict(e, n, mode, enforceCatchAll).Some? <==>
      Compatible(e, n) && if mode == Strict then !(e == n && AllStatic(e)) else First(StaticParamSibling, e, n) == |e| && !AllStatic(e)
  {
    FirstStarMeaning(e, n);
    if |e| == |n| && First(StaticClash, e, n) == |e| {
      NoStarsNoClash(e, n);
    }
    hide First, FirstCatchAll, AllStatic;
  }

  lemma NoStarsNoClash(e: seq<Segment>, n: seq<Segment>)
    requires |e| == |n| && FirstCatchAll(e) == |e| && FirstCatchAll(n) == |n|
    requires First(StaticClash, e, n) == |e|
    ensures First(StaticParamSibling, e, n) == |e| && First(ParamPair, e, n) == |e| <==> e == n && AllStatic(e)
    ensures First(StaticParamSibling, e, n) == |e| ==> (First(ParamPair, e, n) == |e| <==> AllStatic(e))
  {
    var s, p := First(StaticParamSibling, e, n), First(ParamPair, e, n);
    forall m | 0 <= m < |e|
      ensures Shows(StaticParamSibling, e[m], n[m]) || Shows(ParamPair, e[m], n[m])
           || (e[m] == n[m] && ClassifySegment(e[m]) == Static)
    {
      assert !Shows(StaticClash, e[m], n[m]);
    }
    if s == |e| && p == |e| {
      assert forall m :: 0 <= m < |e| ==> !Shows(StaticParamSibling, e[m], n[m]) && !Shows(ParamPair, e[m], n[m]);
    }
    if AllStatic(e) && s == |e| {
      assert p < |e| ==> Shows(ParamPair, e[p], n[p]);
    }
  }

  lemma CatchAllMeaning(path: string)
    ensures HasCatchAll(path) <==> FirstCatchAll(SplitPathSegments(path)) < |SplitPathSegments(path)|
  {
  }

  lemma StaticTwinsHaveNoCatchAll(p: string, q: string)
    requires HasCatchAll(p) || HasCatchAll(q)
    ensures !StaticTwins(p, q)
  {
  }

  predicate SomewhereShows(f: Feature, e: seq<Segment>, n: seq<Segment>) {
    exists k :: 0 <= k < Min(|e|, |n|) && Shows(f, e[k], n[k])
  }

  lemma FirstIsSomewhere(f: Feature, e: seq<Segment>, n: seq<Segment>)
    ensures SomewhereShows(f, e, n) <==> First(f, e, n) < Min(|e|, |n|)
  {
  }

  /** Equally long patterns without different static segments, even behind a catch-all. */
  predicate RunsAlongside(e: seq<Segment>, n: seq<Segment>) {
    |e| == |n| && !SomewhereShows(StaticClash, e, n)
  }

  lemma ConflictSkippingStars(e: seq<Segment>, n: seq<Segment>, mode: PathConflictMode)
    ensures SegmentConflict(e, n, mode, false).Some? <==>
      RunsAlongside(e, n) &&
      if mode == Strict then SomewhereShows(StaticParamSibling, e, n) || SomewhereShows(ParamPair, e, n)
      else !SomewhereShows(StaticParamSibling, e, n) && SomewhereShows(ParamPair, e, n)
    ensures RunsAlongside(e, n) ==> Compatible(e, n)
  {
    FirstIsSomewhere(StaticClash, e, n);
    FirstIsSomewhere(StaticParamSibling, e, n);
    FirstIsSomewhere(ParamPair, e, n);
  }

  /** What goes unnoticed while catch-alls are not enforced: they are skipped like segments
      that fit anything, so one of two routes with a catch-all must be equally long, hold no
      different static segment even behind it, and let a parameter meet a parameter or, in
      strict mode, a static segment. */
  predicate Overlooked(p: string, q: string, mode: PathConflictMode) {
    var e, n := SplitPathSegments(p), SplitPathSegments(q);
    && (HasCatchAll(p) || HasCatchAll(q))
    && !(&& RunsAlongside(e, n)
         && if mode == Strict then SomewhereShows(StaticParamSibling, e, n) || SomewhereShows(ParamPair, e, n)
            else !SomewhereShows(StaticParamSibling, e, n) && SomewhereShows(ParamPair, e, n))
  }

  /** Strict mode reports a conflict exactly for two routes that some request would reach
      both of, unless they are one static path, and unless catch-alls are not enforced and
      the pair is overlooked. Without catch-alls the enforcement flag makes no difference. */
  lemma StrictConflictDecidesOverlap(p: string, q: string, enforceCatchAll: bool)
    ensures PathConflict(p, q, Strict, enforceCatchAll).Some?
      <==> Overlap(p, q) && !StaticTwins(p, q) && (enforceCatchAll || !Overlooked(p, q, Strict))
  {
    OverlapMeaning(p, q);
    CatchAllMeaning(p);
    CatchAllMeaning(q);
    var e, n := SplitPathSegments(p), SplitPathSegments(q);
    hide SegmentConflict, Overlap, HasCatchAll, SplitPathSegments, Compatible, RunsAlongside, SomewhereShows;
    if HasCatchAll(p) || HasCatchAll(q) {
      StaticTwinsHaveNoCatchAll(p, q);
      hide StaticTwins;
      if enforceCatchAll {
        ConflictWithStars(e, n, Strict);
      } else {
        ConflictSkippingStars(e, n, Strict);
      }
    } else {
      ConflictWithoutStars(e, n, Strict, enforceCatchAll);
    }
  }

  lemma MutualContainmentMeaning(e: seq<Segment>, n: seq<Segment>)
    requires FirstCatchAll(e) == |e| && FirstCatchAll(n) == |n|
    ensures CoversPattern(e, n) && CoversPattern(n, e)
      <==> Compatible(e, n) && First(StaticParamSibling, e, n) == |e|
  {
    var s, clash := First(StaticParamSibling, e, n), First(StaticClash, e, n);
    if |e| == |n| {
      if s == |e| && clash == |e| {
        forall m | 0 <= m < |e|
          ensures Covers(e[m], n[m]) && Covers(n[m], e[m])
        {
          assert !Shows(StaticParamSibling, e[m], n[m]) && !Shows(StaticClash, e[m], n[m]);
        }
      } else {
        var m := Min(s, clash);
        assert !Covers(e[m], n[m]) || !Covers(n[m], e[m]);
      }
    }
  }

  /** In prefer-static mode two routes conflict exactly when they overlap and either a
      catch-all takes part, unless it is overlooked, or neither is more specific than the
      other while both have a parameter. */
  lemma PreferStaticConflictMeaning(p: string, q: string, enforceCatchAll: bool)
    ensures PathConflict(p, q, PreferStatic, enforceCatchAll).Some? <==>
      Overlap(p, q) &&
      if HasCatchAll(p) || HasCatchAll(q) then enforceCatchAll || !Overlooked(p, q, PreferStatic)
      else Contains(p, q) && Contains(q, p) && HasParameter(p)
  {
    var e, n := SplitPathSegments(p), SplitPathSegments(q);
    OverlapMeaning(p, q);
    ContainsMeaning(p, q);
    ContainsMeaning(q, p);
    CatchAllMeaning(p);
    CatchAllMeaning(q);
    if HasCatchAll(p) || HasCatchAll(q) {
      hide SegmentConflict, Overlap, HasCatchAll, SplitPathSegments, Compatible, RunsAlongside, SomewhereShows;
      if enforceCatchAll {
        ConflictWithStars(e, n, PreferStatic);
      } else {
        ConflictSkippingStars(e, n, PreferStatic);
      }
    } else {
      assert HasParameter(p) <==> !AllStatic(e);
      hide SegmentConflict, Overlap, HasCatchAll, HasParameter, SplitPathSegments, Compatible, CoversPattern, Contains;
      ConflictWithoutStars(e, n, PreferStatic, enforceCatchAll);
      MutualContainmentMeaning(e, n);
    }
  }

  lemma ContainmentOverlapsItself(p: string, q: string)
    requires !HasCatchAll(p) && !HasCatchAll(q) && Contains(p, q) && Contains(q, p)
    ensures Overlap(p, q)
  {
    ContainsMeaning(p, q);
    ContainsMeaning(q, p);
    OverlapMeaning(p, q);
    MutualContainmentMeaning(SplitPathSegments(p), SplitPathSegments(q));
  }

  /** Prefer-static mode without catch-alls: a conflict is a pair of routes that contain
      each other and have a parameter. */
  lemma PreferStaticConflictIsMutualContainment(p: string, q: string, enforceCatchAll: bool)
    requires !HasCatchAll(p) && !HasCatchAll(q)
    ensures PathConflict(p, q, PreferStatic, enforceCatchAll).Some?
      <==> Contains(p, q) && Contains(q, p) && HasParameter(p)
  {
    PreferStaticConflictMeaning(p, q, enforceCatchAll);
    if Contains(p, q) && Contains(q, p) {
      ContainmentOverlapsItself(p, q);
    }
  }
}

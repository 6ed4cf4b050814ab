/** What a resume replays, for any matcher and for a single bucket. */
module Replays {
  import opened Wrappers
  import opened Scopes
  import opened Records
  import opened EventStream
  import opened StreamInvariants
  import opened StreamDelivery

  function ResumeCursor(received: seq<Record>): string {
    if received == [] then "" else received[|received| - 1].Cursor()
  }

  // ---------------------------------------------------------------------
  // Positions
  // ---------------------------------------------------------------------

  predicate SliceAt(part: seq<Record>, whole: seq<Record>, i: nat) {
    i + |part| <= |whole| && part == whole[i..i + |part|]
  }

  /** The part is a run of the whole, without loss, duplicate or reordering. */
  ghost predicate Contiguous(part: seq<Record>, whole: seq<Record>) {
    exists i: nat :: SliceAt(part, whole, i)
  }

  /** In an ascending sequence a cursor has one position. */
  lemma CursorPosition(records: seq<Record>, i: nat, j: nat)
    requires Ascending(records) && i < |records| && j < |records| && records[i].Cursor() == records[j].Cursor()
    ensures i == j
  {
    CursorsCompareAsNumbers(records[i], records[j]);
  }

  lemma FindInSuffix(all: seq<Record>, offset: nat, last: nat)
    requires Ascending(all) && offset <= |all| && last < |all|
    ensures FindCursor(all[offset..], all[last].Cursor()) == if last < offset then None else Some(last - offset)
  {
    hide FindCursor;
    assert last >= offset ==> all[offset..][last - offset] == all[last] && all[last] in all[offset..];
    var found := FindCursor(all[offset..], all[last].Cursor());
    if found.Some? {
      CursorPosition(all, offset + found.value, last);
    }
  }

  /** The selected records published after a cursor. */
  function LaterRecords(history: seq<Record>, cursor: nat, selection: Selection): seq<Record> {
    if cursor <= |history| then Select(history[cursor..], selection) else []
  }

  lemma MissedIsLater(history: seq<Record>, selection: Selection, p: nat)
    requires Numbered(history) && p < |Select(history, selection)|
    ensures var all := Select(history, selection); all[p + 1..] == LaterRecords(history, all[p].cursor, selection)
  {
    hide Select;
    var all := Select(history, selection);
    var r := all[p];
    SelectMembers(history, selection, r);
    assert history[r.cursor - 1] == r;
    var upTo := Select(history[..r.cursor], selection);
    assert history == history[..r.cursor] + history[r.cursor..];
    SelectAppend(history[..r.cursor], history[r.cursor..], selection);
    assert history[..r.cursor] == history[..r.cursor - 1] + [r];
    SelectOne(history[..r.cursor - 1], selection, r);
    assert all[|upTo| - 1] == r;
    NumberedAscends(history);
    SelectAscends(history, selection);
    CursorPosition(all, p, |upTo| - 1);
  }

  // ---------------------------------------------------------------------
  // Exact matching
  // ---------------------------------------------------------------------

  lemma RetainedMember(history: seq<Record>, cfg: Config, s: Scope, r: Record)
    requires cfg.Normal() && cfg.matcher == Exact && LabelsAreNonEmpty(s)
    ensures r in RetainedAt(history, cfg, s) <==> r in LastN(Select(history, ByScope(s)), cfg.bufferSize)
  {
    hide ExactMatch, LabelsAreNonEmpty, Select;
    ExactMatchIsEquality(s);
    var all, buckets := Select(history, ByScope(s)), BucketsOf(history, cfg.bufferSize);
    SelectMembers(history, ByScope(s), r);
    SelectMembers(history, Retained(cfg.matcher, s, buckets), r);
    assert r in LastN(all, cfg.bufferSize) ==> r in all;
    assert r in history && r.scope == s ==> s in ScopesOf(history);
    assert Matches(cfg.matcher, s, r.scope) <==> ExactMatch(s, r.scope);
  }

  /** With exact matching, a subscription to non-empty labels sees one bucket. */
  lemma RetainedIsBucket(history: seq<Record>, cfg: Config, s: Scope)
    requires cfg.Normal() && cfg.matcher == Exact && LabelsAreNonEmpty(s) && Numbered(history)
    ensures RetainedAt(history, cfg, s) == LastN(Select(history, ByScope(s)), cfg.bufferSize)
    ensures Ascending(Select(history, ByScope(s)))
  {
    NumberedAscends(history);
    SelectAscends(history, ByScope(s));
    SelectAscends(history, Retained(cfg.matcher, s, BucketsOf(history, cfg.bufferSize)));
    var retained, bucket := RetainedAt(history, cfg, s), LastN(Select(history, ByScope(s)), cfg.bufferSize);
    hide RetainedAt, Select, LabelsAreNonEmpty, BucketsOf;
    forall r: Record
      ensures r in retained <==> r in bucket
    {
      RetainedMember(history, cfg, s, r);
    }
    AscendingIsUnique(retained, bucket);
  }

  /** A resume from the last of a contiguous run of received records reports a gap exactly
      when that record was evicted, that is when at least bufferSize records of the scope
      were published after it; otherwise it replays exactly those. */
  lemma ResumeReplaysTheRest(all: seq<Record>, bufferSize: nat, received: seq<Record>, i: nat)
    requires bufferSize > 0 && Ascending(all) && received != [] && SliceAt(received, all, i)
    ensures var missed := all[i + |received|..];
            ReplayAfter(LastN(all, bufferSize), ResumeCursor(received))
            == if |missed| >= bufferSize then Gap else Replay(missed)
  {
    hide FindCursor, LastN;
    var offset, last := |all| - |LastN(all, bufferSize)|, i + |received| - 1;
    assert all[last] == received[|received| - 1];
    CursorIsNotEmpty(all[last]);
    FindInSuffix(all, offset, last);
    assert last >= offset ==> all[offset..][last - offset + 1..] == all[last + 1..];
  }

  lemma CursorIsNotEmpty(r: Record)
    ensures r.Cursor() != ""
  {
  }

  /** The same condition in terms of the publish history. */
  lemma GapOfReceived(history: seq<Record>, cfg: Config, s: Scope, received: seq<Record>, i: nat)
    requires cfg.Normal() && cfg.matcher == Exact && LabelsAreNonEmpty(s) && Numbered(history)
    requires received != [] && SliceAt(received, Select(history, ByScope(s)), i)
    ensures ReplayAfter(RetainedAt(history, cfg, s), ResumeCursor(received)).Gap?
       <==> |LaterRecords(history, received[|received| - 1].cursor, ByScope(s))| >= cfg.bufferSize
  {
    hide LabelsAreNonEmpty, Select, LastN, ReplayAfter, ResumeCursor, LaterRecords, Ascending, RetainedAt;
    var all := Select(history, ByScope(s));
    RetainedIsBucket(history, cfg, s);
    ResumeReplaysTheRest(all, cfg.bufferSize, received, i);
    LastOfSlice(received, all, i);
    MissedIsLater(history, ByScope(s), i + |received| - 1);
  }

  lemma LastOfSlice(part: seq<Record>, whole: seq<Record>, i: nat)
    requires part != [] && SliceAt(part, whole, i)
    ensures part[|part| - 1] == whole[i + |part| - 1]
  {
  }

  // ---------------------------------------------------------------------
  // Any matcher
  // ---------------------------------------------------------------------

  lemma {:induction false} SameSelectionExactly(history: seq<Record>, narrow: Selection, wide: Selection)
    requires forall r :: r in history && Picks(narrow, r) ==> Picks(wide, r)
    ensures Select(history, narrow) == Select(history, wide)
       <==> forall r :: r in history && Picks(wide, r) ==> Picks(narrow, r)
  {
    if forall r :: r in history && Picks(wide, r) ==> Picks(narrow, r) {
      SameSelection(history, narrow, wide);
    } else {
      var r :| r in history && Picks(wide, r) && !Picks(narrow, r);
      SelectMembers(history, narrow, r);
      SelectMembers(history, wide, r);
    }
  }

  lemma ReplayIsLaterRetained(history: seq<Record>, kept: Selection, last: Record)
    requires Numbered(history) && last in Select(history, kept)
    ensures ReplayAfter(Select(history, kept), last.Cursor()) == Replay(LaterRecords(history, last.cursor, kept))
    ensures last.cursor <= |history|
  {
    SelectMembers(history, kept, last);
    hide Select, LaterRecords;
    var retained := Select(history, kept);
    NumberedAscends(history);
    SelectAscends(history, kept);
    var p := IndexOf(retained, last);
    FindInSuffix(retained, 0, p);
    hide FindCursor;
    assert retained[0..] == retained;
    CursorIsNotEmpty(last);
    MissedIsLater(history, kept, p);
  }

  lemma IndexOf(records: seq<Record>, r: Record) returns (p: nat)
    requires r in records
    ensures p < |records| && records[p] == r
  {
    p :| p < |records| && records[p] == r;
  }

  /** A record at a position is among the last n exactly if fewer than n follow it. */
  lemma AmongTheLast(all: seq<Record>, n: nat, p: nat)
    requires Ascending(all) && p < |all|
    ensures all[p] in LastN(all, n) <==> |all| - p <= n
  {
    var suffix := LastN(all, n);
    var offset := |all| - |suffix|;
    assert p >= offset ==> suffix[p - offset] == all[p];
    if all[p] in suffix {
      var k :| 0 <= k < |suffix| && suffix[k] == all[p];
      CursorPosition(all, offset + k, p);
    }
  }

  lemma InBucket(history: seq<Record>, cfg: Config, s: Scope, r: Record)
    requires cfg.Normal() && r in history && Matches(cfg.matcher, s, r.scope)
    ensures Picks(Retained(cfg.matcher, s, BucketsOf(history, cfg.bufferSize)), r)
       <==> r in LastN(Select(history, ByScope(r.scope)), cfg.bufferSize)
  {
    hide Select, Matches, LastN;
    BucketIsLatest(history, cfg.bufferSize, r.scope);
    assert r.scope in ScopesOf(history);
  }

  /** A record is still in its bucket exactly if fewer than bufferSize records of its scope
      were published after it. */
  lemma HeldWhileFewFollow(history: seq<Record>, cfg: Config, s: Scope, r: Record)
    requires cfg.Normal() && Numbered(history) && r in history && Matches(cfg.matcher, s, r.scope)
    ensures Picks(Retained(cfg.matcher, s, BucketsOf(history, cfg.bufferSize)), r)
       <==> |LaterRecords(history, r.cursor, ByScope(r.scope))| < cfg.bufferSize
  {
    hide Matches, BucketsOf, LastN;
    InBucket(history, cfg, s, r);
    SelectMembers(history, ByScope(r.scope), r);
    hide Select, LaterRecords;
    var all := Select(history, ByScope(r.scope));
    NumberedAscends(history);
    SelectAscends(history, ByScope(r.scope));
    var p := IndexOf(all, r);
    AmongTheLast(all, cfg.bufferSize, p);
    MissedIsLater(history, ByScope(r.scope), p);
  }

  /** The first of the later records of a scope has all the others after it. */
  lemma FirstOfLater(history: seq<Record>, cursor: nat, t: Scope)
    requires Numbered(history) && cursor <= |history| && LaterRecords(history, cursor, ByScope(t)) != []
    ensures var later := LaterRecords(history, cursor, ByScope(t));
      && later[0] in history && later[0] in history[cursor..] && later[0].scope == t
      && LaterRecords(history, later[0].cursor, ByScope(t)) == later[1..]
  {
    var later := LaterRecords(history, cursor, ByScope(t));
    SelectMembers(history[cursor..], ByScope(t), later[0]);
    hide Select;
    var before := Select(history[..cursor], ByScope(t));
    assert history == history[..cursor] + history[cursor..];
    SelectAppend(history[..cursor], history[cursor..], ByScope(t));
    MissedIsLater(history, ByScope(t), |before|);
  }

  /** A record published after the cursor has fewer followers than the cursor. */
  lemma FewerFollow(history: seq<Record>, cursor: nat, r: Record)
    requires Numbered(history) && cursor <= |history| && r in history[cursor..]
    ensures |LaterRecords(history, r.cursor, ByScope(r.scope))| < |LaterRecords(history, cursor, ByScope(r.scope))|
  {
    var k :| 0 <= k < |history[cursor..]| && history[cursor..][k] == r;
    assert history[cursor + k] == r;
    hide Select;
    var part := history[cursor..];
    assert part == part[..k + 1] + history[r.cursor..];
    SelectAppend(part[..k + 1], history[r.cursor..], ByScope(r.scope));
    assert part[..k + 1] == part[..k] + [r];
    SelectOne(part[..k], ByScope(r.scope), r);
  }

  /** No matching scope has more later records than its bucket holds. */
  ghost predicate EveryScopeFits(history: seq<Record>, cfg: Config, s: Scope, cursor: nat) {
    forall t :: Matches(cfg.matcher, s, t) ==> |LaterRecords(history, cursor, ByScope(t))| <= cfg.bufferSize
  }

  lemma NothingEvictedWhileScopesFit(history: seq<Record>, cfg: Config, s: Scope, cursor: nat)
    requires cfg.Normal() && Numbered(history) && cursor <= |history|
    ensures EveryScopeFits(history, cfg, s, cursor)
       <==> forall r :: r in history[cursor..] && Picks(ByMatch(cfg.matcher, s), r) ==>
              Picks(Retained(cfg.matcher, s, BucketsOf(history, cfg.bufferSize)), r)
  {
    hide LaterRecords, BucketsOf, Matches;
    assert forall r :: r in history[cursor..] ==> r in history;
    if EveryScopeFits(history, cfg, s, cursor) {
      forall r | r in history[cursor..] && Picks(ByMatch(cfg.matcher, s), r)
        ensures Picks(Retained(cfg.matcher, s, BucketsOf(history, cfg.bufferSize)), r)
      {
        FewerFollow(history, cursor, r);
        HeldWhileFewFollow(history, cfg, s, r);
      }
    } else {
      var t :| Matches(cfg.matcher, s, t) && |LaterRecords(history, cursor, ByScope(t))| > cfg.bufferSize;
      FirstOfLater(history, cursor, t);
      HeldWhileFewFollow(history, cfg, s, LaterRecords(history, cursor, ByScope(t))[0]);
    }
  }

  /** A resume whose cursor no retained record has reports a gap, if anything is retained. */
  lemma UnretainedIsGap(history: seq<Record>, kept: Selection, last: Record)
    requires Numbered(history) && last in history && Select(history, kept) != []
    ensures ReplayAfter(Select(history, kept), last.Cursor()).Gap? <==> last !in Select(history, kept)
  {
    hide Select;
    var retained := Select(history, kept);
    if last in retained {
      ReplayIsLaterRetained(history, kept, last);
    } else {
      hide FindCursor;
      CursorIsNotEmpty(last);
      var found := FindCursor(retained, last.Cursor());
      if found.Some? {
        SelectMembers(history, kept, retained[found.value]);
        CursorsCompareAsNumbers(retained[found.value], last);
      }
    }
  }

  /** The newest record of a scope is always retained. */
  lemma SomethingIsRetained(history: seq<Record>, cfg: Config, s: Scope, r: Record)
    requires cfg.Normal() && Numbered(history) && r in history && Matches(cfg.matcher, s, r.scope)
    ensures RetainedAt(history, cfg, s) != []
  {
    hide Matches, BucketsOf, Select, LastN;
    var kept := Retained(cfg.matcher, s, BucketsOf(history, cfg.bufferSize));
    var all := Select(history, ByScope(r.scope));
    SelectMembers(history, ByScope(r.scope), r);
    var newest := all[|all| - 1];
    SelectMembers(history, ByScope(r.scope), newest);
    NewestIsHeld(history, cfg, s, newest, all);
    SelectMembers(history, kept, newest);
  }

  lemma NewestIsHeld(history: seq<Record>, cfg: Config, s: Scope, r: Record, all: seq<Record>)
    requires cfg.Normal() && Numbered(history) && r in history && Matches(cfg.matcher, s, r.scope)
    requires all == Select(history, ByScope(r.scope)) && all != [] && all[|all| - 1] == r
    ensures Picks(Retained(cfg.matcher, s, BucketsOf(history, cfg.bufferSize)), r)
  {
    hide Matches, BucketsOf, LaterRecords, Select;
    HeldWhileFewFollow(history, cfg, s, r);
    MissedIsLater(history, ByScope(r.scope), |all| - 1);
  }

  /** Every resume from a record that was published to a matching scope, whatever the
      matcher. It reports a gap exactly if at least bufferSize records of that record's own
      scope followed it. Otherwise it replays the later records that are still retained, and
      it replays all later matching records exactly if no matching scope received more than
      bufferSize of them. Buckets evict independently, so with a matcher that spans several
      of them a loss need not show as a gap. */
  lemma ResumeLosesExactlyTheEvicted(history: seq<Record>, cfg: Config, s: Scope, last: Record)
    requires cfg.Normal() && Numbered(history) && last in history && Matches(cfg.matcher, s, last.scope)
    ensures var replay := ReplayAfter(RetainedAt(history, cfg, s), last.Cursor());
      && (replay.Gap? <==> |LaterRecords(history, last.cursor, ByScope(last.scope))| >= cfg.bufferSize)
      && (replay.Replay? ==>
            && replay.records == LaterRecords(history, last.cursor, Retained(cfg.matcher, s, BucketsOf(history, cfg.bufferSize)))
            && (replay.records == LaterRecords(history, last.cursor, ByMatch(cfg.matcher, s))
                <==> forall t :: Matches(cfg.matcher, s, t) ==>
                       |LaterRecords(history, last.cursor, ByScope(t))| <= cfg.bufferSize))
  {
    var kept := Retained(cfg.matcher, s, BucketsOf(history, cfg.bufferSize));
    hide Select, BucketsOf, ReplayAfter, Matches;
    SomethingIsRetained(history, cfg, s, last);
    HeldWhileFewFollow(history, cfg, s, last);
    SelectMembers(history, kept, last);
    UnretainedIsGap(history, kept, last);
    if last in Select(history, kept) {
      ReplayIsLaterRetained(history, kept, last);
      RetainedAreMatching(history, cfg, s, last.cursor);
      NothingEvictedWhileScopesFit(history, cfg, s, last.cursor);
    }
  }

  /** A resume from a cursor that no matching record ever had is a gap exactly if any
      matching record was published; otherwise it starts live. */
  lemma ResumeFromUnknownCursor(history: seq<Record>, cfg: Config, s: Scope, after: string)
    requires cfg.Normal() && Numbered(history) && after != ""
    requires forall r :: r in history && Matches(cfg.matcher, s, r.scope) ==> r.Cursor() != after
    ensures ReplayAfter(RetainedAt(history, cfg, s), after)
         == if exists r :: r in history && Matches(cfg.matcher, s, r.scope) then Gap else Replay([])
  {
    hide Select, BucketsOf, Matches, FindCursor;
    var retained := RetainedAt(history, cfg, s);
    if r :| r in history && Matches(cfg.matcher, s, r.scope) {
      SomethingIsRetained(history, cfg, s, r);
    }
    forall r | r in retained
      ensures r in history && Matches(cfg.matcher, s, r.scope)
    {
      SelectMembers(history, Retained(cfg.matcher, s, BucketsOf(history, cfg.bufferSize)), r);
    }
    assert retained != [] ==> retained[0] in retained;
  }

  lemma RetainedAreMatching(history: seq<Record>, cfg: Config, s: Scope, cursor: nat)
    requires cfg.Normal() && cursor <= |history|
    ensures var kept, wide := Retained(cfg.matcher, s, BucketsOf(history, cfg.bufferSize)), ByMatch(cfg.matcher, s);
      LaterRecords(history, cursor, kept) == LaterRecords(history, cursor, wide)
      <==> forall r :: r in history[cursor..] && Picks(wide, r) ==> Picks(kept, r)
  {
    hide Select, BucketsOf, Matches;
    SameSelectionExactly(history[cursor..], Retained(cfg.matcher, s, BucketsOf(history, cfg.bufferSize)), ByMatch(cfg.matcher, s));
  }

  /** Subset matching can lose a record without reporting a gap: a subscription to every
      room resumes after a record r1 of one room, while another room with a buffer of one
      has already evicted r2. */
  lemma SubsetResumeLosesSilently(r1: Record, r2: Record, r3: Record)
    requires Numbered([r1, r2, r3]) && r1.scope != r2.scope && r2.scope == r3.scope
    ensures Matches(Subset, map[], r2.scope)
    ensures var replay := ReplayAfter(RetainedAt([r1, r2, r3], Config(1, 1, Subset), map[]), r1.Cursor());
            replay.Replay? && r2 !in replay.records
  {
    var history := [r1, r2, r3];
    var buckets := BucketsOf(history, 1);
    var kept := Retained(Subset, map[], buckets);
    BucketsOfThree(r1, r2, r3, r2.scope, r1.scope);
    assert history[0].cursor == 1 && history[1].cursor == 2 && history[2].cursor == 3;
    PicksOfThree(r1, r2, r3, buckets);
    hide BucketsOf, Select, ReplayAfter, Picks, Matches;
    SelectMembers(history, kept, r1);
    ReplayIsLaterRetained(history, kept, r1);
    SelectMembers(history[r1.cursor..], kept, r2);
  }

  lemma PicksOfThree(r1: Record, r2: Record, r3: Record, buckets: Buckets)
    requires r1.scope in buckets && r2.scope in buckets && r2.cursor != r3.cursor
    requires buckets[r1.scope] == [r1] && buckets[r2.scope] == [r3]
    ensures Picks(Retained(Subset, map[], buckets), r1) && !Picks(Retained(Subset, map[], buckets), r2)
    ensures Matches(Subset, map[], r2.scope)
  {
    assert r1 in buckets[r1.scope];
  }

  lemma BucketsOfThree(r1: Record, r2: Record, r3: Record, inA: Scope, inB: Scope)
    requires inA != inB && r1.scope == inB && r2.scope == inA && r3.scope == inA
    ensures var buckets := BucketsOf([r1, r2, r3], 1);
      inA in buckets && inB in buckets && buckets[inA] == [r3] && buckets[inB] == [r1]
  {
    var history := [r1, r2, r3];
    assert history[0] in history && history[1] in history;
    SelectThree(r1, r2, r3, ByScope(inA));
    SelectThree(r1, r2, r3, ByScope(inB));
    assert [] + [r2] + [r3] == [r2, r3] && [r1] + [] + [] == [r1];
    hide Select;
    BucketIsLatest(history, 1, inA);
    BucketIsLatest(history, 1, inB);
  }

  lemma SelectThree(x: Record, y: Record, z: Record, selection: Selection)
    ensures Select([x, y, z], selection)
         == (if Picks(selection, x) then [x] else []) + (if Picks(selection, y) then [y] else [])
            + (if Picks(selection, z) then [z] else [])
  {
    hide Picks;
    SelectOne([], selection, x);
    SelectOne([x], selection, y);
    SelectOne([x, y], selection, z);
    assert [] + [x] == [x] && [x] + [y] == [x, y] && [x, y] + [z] == [x, y, z];
  }
}

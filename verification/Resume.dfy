/** Clients that follow one scope over many sessions: each reconnects with the cursor of
    the last record it received. */
module Resume {
  import opened Wrappers
  import opened Scopes
  import opened Records
  import opened EventStream
  import opened StreamInvariants
  import opened StreamDelivery
  import opened Replays

  /** A client, the records it received in earlier sessions, and its present session. */
  datatype Client = Client(scope: Scope, earlier: seq<Record>, session: Option<nat>, gapped: bool)

  datatype System = System(stream: Stream, clients: seq<Client>)

  datatype Move =
    | StreamStep(action: Action)
    | Arrive(scope: Scope)
    | Connect(client: nat)
    | Disconnect(client: nat)

  function Received(c: Client, w: Stream): seq<Record>
    requires c.session.Some? ==> c.session.value < |w.subscribers|
  {
    c.earlier + if c.session.Some? then w.subscribers[c.session.value].consumed else []
  }

  /** A client connects when it has no session and no gap was reported to it. */
  function ConnectClient(s: System, cfg: Config, k: nat): System
    requires k < |s.clients|
  {
    var c := s.clients[k];
    if c.session.Some? || c.gapped then s
    else
      var w := Subscribe(s.stream, cfg, c.scope, ResumeCursor(c.earlier));
      System(w, s.clients[k := if |w.subscribers| == |s.stream.subscribers| then c.(gapped := true)
                               else c.(session := Some(|s.stream.subscribers|))])
  }

  /** A client stops reading at any time; its subscription learns of it by cancellation. */
  function DisconnectClient(s: System, cfg: Config, k: nat): System
    requires k < |s.clients|
  {
    var c := s.clients[k];
    if c.session.None? || c.session.value >= |s.stream.subscribers| then s
    else System(TurnOf(s.stream, cfg, c.session.value, Cancel),
                s.clients[k := c.(earlier := Received(c, s.stream), session := None)])
  }

  function Next(s: System, cfg: Config, move: Move): System
    requires cfg.Normal()
  {
    match move
    case StreamStep(action) => s.(stream := Apply(s.stream, cfg, action))
    case Arrive(scope) => s.(clients := s.clients + [Client(scope, [], None, false)])
    case Connect(k) => if k < |s.clients| then ConnectClient(s, cfg, k) else s
    case Disconnect(k) => if k < |s.clients| then DisconnectClient(s, cfg, k) else s
  }

  function RunAll(cfg: Config, moves: seq<Move>): System
    requires cfg.Normal()
  {
    if moves == [] then System(NEW_STREAM, [])
    else Next(RunAll(cfg, moves[..|moves| - 1]), cfg, moves[|moves| - 1])
  }

  // ---------------------------------------------------------------------
  // Contiguity
  // ---------------------------------------------------------------------

  lemma SliceOfLonger(part: seq<Record>, whole: seq<Record>, more: seq<Record>)
    requires Contiguous(part, whole)
    ensures Contiguous(part, whole + more)
  {
    var i: nat :| SliceAt(part, whole, i);
    assert SliceAt(part, whole + more, i);
  }

  lemma SliceOfPrefix(a: seq<Record>, b: seq<Record>, whole: seq<Record>)
    requires Contiguous(b, whole) && a <= b
    ensures Contiguous(a, whole)
  {
    var i: nat :| SliceAt(b, whole, i);
    assert SliceAt(a, whole, i);
  }

  // ---------------------------------------------------------------------
  // One resume
  // ---------------------------------------------------------------------

  /** The part runs to the end of the whole. */
  ghost predicate UpToDate(part: seq<Record>, whole: seq<Record>) {
    exists i: nat :: i <= |whole| && part == whole[i..]
  }

  /** Whatever a client received before, the replay and the live records it is fed by its
      next session carry on from there. */
  lemma ResumeIsSeamless(received: seq<Record>, u: Subscriber, cfg: Config, history: seq<Record>)
    requires cfg.Normal() && cfg.matcher == Exact && LabelsAreNonEmpty(u.scope) && Numbered(history)
    requires FedInOrder(u, cfg, history) && u.after == ResumeCursor(received)
    requires Contiguous(received, Select(history[..u.joined], ByScope(u.scope)))
    ensures UpToDate(received + u.fed, Select(history[..u.upTo], ByScope(u.scope)))
  {
    hide RetainedAt, Select, Contiguous, ReplayAfter, ResumeCursor;
    var past, live := Select(history[..u.joined], ByScope(u.scope)), Select(history[u.joined..u.upTo], ByScope(u.scope));
    assert history[..u.upTo] == history[..u.joined] + history[u.joined..u.upTo];
    SelectAppend(history[..u.joined], history[u.joined..u.upTo], ByScope(u.scope));
    ExactSelection(history[u.joined..u.upTo], u.scope);
    RetainedIsBucket(history[..u.joined], cfg, u.scope);
    var i := ReplayCarriesOn(received, past, cfg.bufferSize, u.replayed);
    assert received + u.fed == (received + u.replayed) + live;
    assert past[i..] + live == (past + live)[i..];
  }

  lemma ReplayCarriesOn(received: seq<Record>, past: seq<Record>, bufferSize: nat, replayed: seq<Record>) returns (i: nat)
    requires bufferSize > 0 && Ascending(past) && Contiguous(received, past)
    requires ReplayAfter(LastN(past, bufferSize), ResumeCursor(received)) == Replay(replayed)
    ensures i <= |past| && received + replayed == past[i..]
  {
    hide LastN, Ascending, FindCursor;
    if received == [] {
      i := |past|;
    } else {
      i := PositionOfPart(received, past);
      ResumeReplaysTheRest(past, bufferSize, received, i);
      SliceAndRest(received, past, i);
    }
  }

  lemma SliceAndRest(part: seq<Record>, whole: seq<Record>, i: nat)
    requires SliceAt(part, whole, i)
    ensures part + whole[i + |part|..] == whole[i..]
  {
  }

  lemma PositionOfPart(part: seq<Record>, whole: seq<Record>) returns (i: nat)
    requires Contiguous(part, whole)
    ensures SliceAt(part, whole, i)
  {
    i :| SliceAt(part, whole, i);
  }

  lemma ExactSelection(history: seq<Record>, s: Scope)
    requires LabelsAreNonEmpty(s)
    ensures Select(history, ByMatch(Exact, s)) == Select(history, ByScope(s))
  {
    ExactMatchIsEquality(s);
    SameSelection(history, ByMatch(Exact, s), ByScope(s));
  }

  // ---------------------------------------------------------------------
  // Whole runs
  // ---------------------------------------------------------------------

  ghost predicate FollowsScope(c: Client, w: Stream) {
    if c.session.None? then Contiguous(c.earlier, Select(w.history, ByScope(c.scope)))
    else
      && c.session.value < |w.subscribers|
      && var u := w.subscribers[c.session.value];
         u.scope == c.scope && u.after == ResumeCursor(c.earlier) && u.joined <= |w.history|
         && Contiguous(c.earlier, Select(w.history[..u.joined], ByScope(c.scope)))
  }

  ghost predicate Sound(s: System, cfg: Config)
    requires cfg.Normal()
  {
    && Valid(s.stream, cfg)
    && forall c :: c in s.clients && LabelsAreNonEmpty(c.scope) ==> FollowsScope(c, s.stream)
  }

  predicate SameOrigin(u: Subscriber, v: Subscriber) {
    u.scope == v.scope && u.after == v.after && u.joined == v.joined
  }

  ghost predicate OnlyAppends(w: Stream, v: Stream) {
    && w.history <= v.history && |w.subscribers| <= |v.subscribers|
    && forall i :: 0 <= i < |w.subscribers| ==> SameOrigin(w.subscribers[i], v.subscribers[i])
  }

  lemma DeliveryKeepsOrigin(u: Subscriber, cfg: Config, r: Record)
    ensures SameOrigin(u, Deliver(u, cfg, r))
  {
    hide Receives;
  }

  /** Steps append to the history, and leave every subscriber its origin. */
  lemma StepsOnlyAppend(w: Stream, cfg: Config, action: Action)
    requires cfg.Normal()
    ensures OnlyAppends(w, Apply(w, cfg, action))
  {
    hide SameOrigin, TakeTurn, Deliver, Receives, BucketWith, CountSlow, CountRegistered, RetainedRecords, ReplayAfter;
    forall u
      ensures SameOrigin(u, u)
    {
      SameOriginAsItself(u);
    }
    match action
    case PublishEvent(scope, event, now) =>
      var r := NextRecord(w, scope, event, now);
      forall i | 0 <= i < |w.subscribers|
        ensures SameOrigin(w.subscribers[i], DeliverAll(w.subscribers, cfg, r)[i])
      {
        DeliveryKeepsOrigin(w.subscribers[i], cfg, r);
      }
    case SubscribeTo(scope, after) =>
    case SubscriberTurn(i, turn) =>
      if i < |w.subscribers| {
        TurnKeepsOrigin(w.subscribers[i], cfg, turn);
      }
  }

  lemma SameOriginAsItself(u: Subscriber)
    ensures SameOrigin(u, u)
  {
  }

  lemma TurnKeepsOrigin(u: Subscriber, cfg: Config, turn: Turn)
    ensures SameOrigin(u, TakeTurn(u, cfg, turn))
  {
  }

  lemma StreamStepKeepsFollowing(c: Client, w: Stream, cfg: Config, action: Action)
    requires cfg.Normal() && FollowsScope(c, w)
    ensures FollowsScope(c, Apply(w, cfg, action))
  {
    var v := Apply(w, cfg, action);
    StepsOnlyAppend(w, cfg, action);
    hide Contiguous, Select, Apply;
    if c.session.None? {
      var more := v.history[|w.history|..];
      assert v.history == w.history + more;
      SelectAppend(w.history, more, ByScope(c.scope));
      SliceOfLonger(c.earlier, Select(w.history, ByScope(c.scope)), Select(more, ByScope(c.scope)));
    } else {
      var u := w.subscribers[c.session.value];
      assert v.history[..u.joined] == w.history[..u.joined];
    }
  }

  lemma ReceivedIsContiguous(c: Client, w: Stream, cfg: Config)
    requires cfg.Normal() && cfg.matcher == Exact && LabelsAreNonEmpty(c.scope)
    requires Valid(w, cfg) && FollowsScope(c, w)
    ensures Contiguous(Received(c, w), Select(w.history, ByScope(c.scope)))
  {
    hide Contiguous, Select;
    if c.session.Some? {
      var u := w.subscribers[c.session.value];
      assert Orderly(u, cfg, w.history);
      ConsumedComesFirst(u);
      ResumeIsSeamless(c.earlier, u, cfg, w.history);
      var seen := Select(w.history[..u.upTo], ByScope(u.scope));
      UpToDateIsContiguous(c.earlier + u.fed, seen);
      SliceOfPrefix(c.earlier + u.consumed, c.earlier + u.fed, seen);
      assert w.history == w.history[..u.upTo] + w.history[u.upTo..];
      SelectAppend(w.history[..u.upTo], w.history[u.upTo..], ByScope(u.scope));
      SliceOfLonger(c.earlier + u.consumed, seen, Select(w.history[u.upTo..], ByScope(u.scope)));
    } else {
      assert Received(c, w) == c.earlier;
    }
  }

  lemma UpToDateIsContiguous(part: seq<Record>, whole: seq<Record>)
    requires UpToDate(part, whole)
    ensures Contiguous(part, whole)
  {
    var i: nat :| i <= |whole| && part == whole[i..];
    assert SliceAt(part, whole, i);
  }

  lemma ConnectKeepsSound(s: System, cfg: Config, k: nat)
    requires cfg.Normal() && cfg.matcher == Exact && k < |s.clients| && Sound(s, cfg)
    ensures Sound(ConnectClient(s, cfg, k), cfg)
  {
    var c, after := s.clients[k], ConnectClient(s, cfg, k);
    if c.session.None? && !c.gapped {
      var action := SubscribeTo(c.scope, ResumeCursor(c.earlier));
      ApplyKeepsValid(s.stream, cfg, action);
      assert after.stream == Apply(s.stream, cfg, action);
      hide Valid, Contiguous, Apply, RetainedRecords, ReplayAfter, Select, CountRegistered, ResumeCursor, LabelsAreNonEmpty;
      assert s.stream.history[..|s.stream.history|] == s.stream.history;
      forall d | d in after.clients && LabelsAreNonEmpty(d.scope)
        ensures FollowsScope(d, after.stream)
      {
        if d in s.clients {
          StreamStepKeepsFollowing(d, s.stream, cfg, action);
        } else {
          assert d == after.clients[k];
          assert FollowsScope(c, s.stream);
        }
      }
    }
  }

  lemma DisconnectKeepsSound(s: System, cfg: Config, k: nat)
    requires cfg.Normal() && cfg.matcher == Exact && k < |s.clients| && Sound(s, cfg)
    ensures Sound(DisconnectClient(s, cfg, k), cfg)
  {
    var c, after := s.clients[k], DisconnectClient(s, cfg, k);
    if c.session.Some? && c.session.value < |s.stream.subscribers| {
      var action := SubscriberTurn(c.session.value, Cancel);
      ApplyKeepsValid(s.stream, cfg, action);
      assert after.stream == Apply(s.stream, cfg, action);
      assert after.stream.history == s.stream.history;
      hide Valid, Contiguous, Apply, Select, LabelsAreNonEmpty;
      forall d | d in after.clients && LabelsAreNonEmpty(d.scope)
        ensures FollowsScope(d, after.stream)
      {
        if d in s.clients {
          StreamStepKeepsFollowing(d, s.stream, cfg, action);
        } else {
          assert d == after.clients[k];
          ReceivedIsContiguous(c, s.stream, cfg);
        }
      }
    }
  }

  lemma NextKeepsSound(s: System, cfg: Config, move: Move)
    requires cfg.Normal() && cfg.matcher == Exact && Sound(s, cfg)
    ensures Sound(Next(s, cfg, move), cfg)
  {
    hide Valid, FollowsScope, LabelsAreNonEmpty, Apply, ConnectClient, DisconnectClient;
    match move
    case StreamStep(action) =>
      ApplyKeepsValid(s.stream, cfg, action);
      forall c | c in s.clients && LabelsAreNonEmpty(c.scope)
        ensures FollowsScope(c, Apply(s.stream, cfg, action))
      {
        StreamStepKeepsFollowing(c, s.stream, cfg, action);
      }
    case Arrive(scope) => NewClientFollows(s.stream, scope);
    case Connect(k) =>
      if k < |s.clients| {
        ConnectKeepsSound(s, cfg, k);
      }
    case Disconnect(k) =>
      if k < |s.clients| {
        DisconnectKeepsSound(s, cfg, k);
      }
  }

  lemma NewClientFollows(w: Stream, scope: Scope)
    ensures FollowsScope(Client(scope, [], None, false), w)
  {
    assert SliceAt([], Select(w.history, ByScope(scope)), 0);
  }

  lemma {:induction false} RunsAreSound(cfg: Config, moves: seq<Move>)
    requires cfg.Normal() && cfg.matcher == Exact
    ensures Sound(RunAll(cfg, moves), cfg)
  {
    hide Valid, Next, FollowsScope;
    if moves == [] {
      RunsAreValid(cfg, []);
      assert Run(cfg, []) == NEW_STREAM;
    } else {
      RunsAreSound(cfg, moves[..|moves| - 1]);
      NextKeepsSound(RunAll(cfg, moves[..|moves| - 1]), cfg, moves[|moves| - 1]);
    }
  }

  /** Lossless resume: with exact matching and non-empty labels, whatever a client received
      over all its sessions is one contiguous run of the publish history of its scope, with
      no loss, duplicate or reordering between or within sessions, in any interleaving with
      publishers, other clients, evictions and slow-consumer drops. While its session is
      live and nothing is in flight, that run reaches the end of the history. */
  lemma ClientsMissNothing(cfg: Config, moves: seq<Move>, k: nat)
    requires cfg.Normal() && cfg.matcher == Exact
    requires k < |RunAll(cfg, moves).clients| && LabelsAreNonEmpty(RunAll(cfg, moves).clients[k].scope)
    ensures var w, c := RunAll(cfg, moves).stream, RunAll(cfg, moves).clients[k];
      && (c.session.Some? ==> c.session.value < |w.subscribers|)
      && Contiguous(Received(c, w), Select(w.history, ByScope(c.scope)))
      && (c.session.Some? ==>
            var u := w.subscribers[c.session.value];
            u.registered && u.phase == Pumping && u.outbox == [] && u.hand.None? && u.replay == [] && u.inbox == [] ==>
              UpToDate(Received(c, w), Select(w.history, ByScope(c.scope))))
  {
    RunsAreSound(cfg, moves);
    var w, c := RunAll(cfg, moves).stream, RunAll(cfg, moves).clients[k];
    hide RunAll, Valid, Contiguous, Select, UpToDate, LabelsAreNonEmpty;
    assert FollowsScope(c, w);
    ReceivedIsContiguous(c, w, cfg);
    if c.session.Some? && Idle(w.subscribers[c.session.value]) {
      IdleIsUpToDate(c, w, cfg);
    }
  }

  predicate Idle(u: Subscriber) {
    u.registered && u.phase == Pumping && u.outbox + u.Hand() + u.replay + u.inbox == []
  }

  lemma IdleIsUpToDate(c: Client, w: Stream, cfg: Config)
    requires cfg.Normal() && cfg.matcher == Exact && LabelsAreNonEmpty(c.scope)
    requires Valid(w, cfg) && FollowsScope(c, w) && c.session.Some? && Idle(w.subscribers[c.session.value])
    ensures UpToDate(Received(c, w), Select(w.history, ByScope(c.scope)))
  {
    hide Contiguous, Select, UpToDate;
    var u := w.subscribers[c.session.value];
    assert Orderly(u, cfg, w.history);
    NothingInFlight(u);
    ResumeIsSeamless(c.earlier, u, cfg, w.history);
    assert w.history[..u.upTo] == w.history;
  }

  // ---------------------------------------------------------------------
  // Any matcher and any labels
  // ---------------------------------------------------------------------

  /** The records are published ones that match the scope, each at most once, in order. */
  ghost predicate InOrder(records: seq<Record>, cfg: Config, s: Scope, history: seq<Record>) {
    Ascending(records) && forall r :: r in records ==> r in history && Matches(cfg.matcher, s, r.scope)
  }

  ghost predicate StaysInOrder(c: Client, w: Stream, cfg: Config) {
    if c.session.None? then InOrder(c.earlier, cfg, c.scope, w.history)
    else
      && c.session.value < |w.subscribers|
      && var u := w.subscribers[c.session.value];
         u.scope == c.scope && u.after == ResumeCursor(c.earlier) && u.joined <= |w.history|
         && InOrder(c.earlier, cfg, c.scope, w.history[..u.joined])
  }

  ghost predicate Tidy(s: System, cfg: Config)
    requires cfg.Normal()
  {
    Valid(s.stream, cfg) && forall c :: c in s.clients ==> StaysInOrder(c, s.stream, cfg)
  }

  lemma OrderInLonger(records: seq<Record>, cfg: Config, s: Scope, history: seq<Record>, longer: seq<Record>)
    requires InOrder(records, cfg, s, history) && history <= longer
    ensures InOrder(records, cfg, s, longer)
  {
    assert forall r :: r in history ==> r in longer;
  }

  lemma OrderInPrefix(a: seq<Record>, b: seq<Record>, cfg: Config, s: Scope, history: seq<Record>)
    requires InOrder(b, cfg, s, history) && a <= b
    ensures InOrder(a, cfg, s, history)
  {
    assert forall r :: r in a ==> r in b;
  }

  /** What a replay starts with comes after the record its cursor names. */
  lemma ReplayComesAfter(retained: seq<Record>, received: seq<Record>, replayed: seq<Record>)
    requires Ascending(retained) && received != []
    requires ReplayAfter(retained, ResumeCursor(received)) == Replay(replayed)
    ensures forall r :: r in replayed ==> r in retained && r.cursor > received[|received| - 1].cursor
  {
    var last := received[|received| - 1];
    CursorIsNotEmpty(last);
    if retained != [] {
      var found := FindCursor(retained, last.Cursor());
      hide FindCursor;
      CursorsCompareAsNumbers(retained[found.value], last);
    }
  }

  lemma AscendingJoin(a: seq<Record>, b: seq<Record>)
    requires Ascending(a) && Ascending(b)
    requires a != [] ==> forall r :: r in b ==> r.cursor > a[|a| - 1].cursor
    ensures Ascending(a + b)
  {
    forall i, j | 0 <= i < j < |a + b|
      ensures (a + b)[i].cursor < (a + b)[j].cursor
    {
      if i < |a| <= j {
        assert b[j - |a|] in b;
      }
    }
  }

  lemma LiveComesAfter(history: seq<Record>, from: nat, to: nat, selection: Selection, r: Record)
    requires Numbered(history) && from <= to <= |history| && r in Select(history[from..to], selection)
    ensures r in history[..to] && r.cursor > from && Picks(selection, r)
  {
    SelectMembers(history[from..to], selection, r);
    var k :| 0 <= k < to - from && history[from..to][k] == r;
    assert history[..to][from + k] == r;
  }

  /** What the next session feeds carries on after everything received before. */
  lemma SessionsStayInOrder(received: seq<Record>, u: Subscriber, cfg: Config, history: seq<Record>)
    requires cfg.Normal() && Numbered(history) && FedInOrder(u, cfg, history) && u.after == ResumeCursor(received)
    requires InOrder(received, cfg, u.scope, history[..u.joined])
    ensures InOrder(received + u.fed, cfg, u.scope, history[..u.upTo])
  {
    hide Select, BucketsOf, ReplayAfter, ResumeCursor, Matches;
    FedAscends(u, cfg, history);
    var past := history[..u.joined];
    forall r | r in u.fed
      ensures r in history[..u.upTo] && Matches(cfg.matcher, u.scope, r.scope)
      ensures received != [] ==> r.cursor > received[|received| - 1].cursor
    {
      FedComesAfter(received, u, cfg, history, r);
    }
    AscendingJoin(received, u.fed);
    OrderInLonger(received, cfg, u.scope, past, history[..u.upTo]);
  }

  lemma FedComesAfter(received: seq<Record>, u: Subscriber, cfg: Config, history: seq<Record>, r: Record)
    requires cfg.Normal() && Numbered(history) && FedInOrder(u, cfg, history) && u.after == ResumeCursor(received)
    requires InOrder(received, cfg, u.scope, history[..u.joined]) && r in u.fed
    ensures r in history[..u.upTo] && Matches(cfg.matcher, u.scope, r.scope)
    ensures received != [] ==> r.cursor > received[|received| - 1].cursor
  {
    hide Select, BucketsOf, ReplayAfter, ResumeCursor, Matches;
    var past := history[..u.joined];
    var kept := Retained(cfg.matcher, u.scope, BucketsOf(past, cfg.bufferSize));
    if r in u.replayed {
      NumberedAscends(past);
      SelectAscends(past, kept);
      ReplayIsRetained(Select(past, kept), u.after, u.replayed, r);
      SelectMembers(past, kept, r);
      assert past <= history[..u.upTo];
      if received != [] {
        ReplayComesAfter(Select(past, kept), received, u.replayed);
      }
    } else {
      LiveComesAfter(history, u.joined, u.upTo, ByMatch(cfg.matcher, u.scope), r);
      if received != [] {
        PublishedBefore(history, u.joined, received[|received| - 1]);
      }
    }
  }

  lemma ReplayIsRetained(retained: seq<Record>, after: string, replayed: seq<Record>, r: Record)
    requires ReplayAfter(retained, after) == Replay(replayed) && r in replayed
    ensures r in retained
  {
    hide FindCursor;
  }

  lemma PublishedBefore(history: seq<Record>, n: nat, r: Record)
    requires Numbered(history) && n <= |history| && r in history[..n]
    ensures r.cursor <= n
  {
  }

  lemma StepKeepsOrder(c: Client, w: Stream, cfg: Config, action: Action)
    requires cfg.Normal() && StaysInOrder(c, w, cfg)
    ensures StaysInOrder(c, Apply(w, cfg, action), cfg)
  {
    var v := Apply(w, cfg, action);
    StepsOnlyAppend(w, cfg, action);
    hide InOrder, Apply;
    if c.session.None? {
      OrderInLonger(c.earlier, cfg, c.scope, w.history, v.history);
    } else {
      var u := w.subscribers[c.session.value];
      assert v.history[..u.joined] == w.history[..u.joined];
    }
  }

  lemma ReceivedInOrder(c: Client, w: Stream, cfg: Config)
    requires cfg.Normal() && Valid(w, cfg) && StaysInOrder(c, w, cfg)
    ensures InOrder(Received(c, w), cfg, c.scope, w.history)
  {
    hide InOrder;
    if c.session.Some? {
      var u := w.subscribers[c.session.value];
      assert Orderly(u, cfg, w.history);
      ConsumedComesFirst(u);
      SessionsStayInOrder(c.earlier, u, cfg, w.history);
      assert c.earlier + u.consumed <= c.earlier + u.fed;
      OrderInPrefix(c.earlier + u.consumed, c.earlier + u.fed, cfg, c.scope, w.history[..u.upTo]);
      OrderInLonger(c.earlier + u.consumed, cfg, c.scope, w.history[..u.upTo], w.history);
    } else {
      assert Received(c, w) == c.earlier;
    }
  }

  lemma ConnectKeepsTidy(s: System, cfg: Config, k: nat)
    requires cfg.Normal() && k < |s.clients| && Tidy(s, cfg)
    ensures Tidy(ConnectClient(s, cfg, k), cfg)
  {
    var c, after := s.clients[k], ConnectClient(s, cfg, k);
    if c.session.None? && !c.gapped {
      var action := SubscribeTo(c.scope, ResumeCursor(c.earlier));
      ApplyKeepsValid(s.stream, cfg, action);
      assert after.stream == Apply(s.stream, cfg, action);
      hide Valid, InOrder, Apply, RetainedRecords, ReplayAfter, CountRegistered, ResumeCursor;
      assert s.stream.history[..|s.stream.history|] == s.stream.history;
      forall d | d in after.clients
        ensures StaysInOrder(d, after.stream, cfg)
      {
        if d in s.clients {
          StepKeepsOrder(d, s.stream, cfg, action);
        } else {
          assert d == after.clients[k];
          assert StaysInOrder(c, s.stream, cfg);
        }
      }
    }
  }

  lemma DisconnectKeepsTidy(s: System, cfg: Config, k: nat)
    requires cfg.Normal() && k < |s.clients| && Tidy(s, cfg)
    ensures Tidy(DisconnectClient(s, cfg, k), cfg)
  {
    var c, after := s.clients[k], DisconnectClient(s, cfg, k);
    if c.session.Some? && c.session.value < |s.stream.subscribers| {
      var action := SubscriberTurn(c.session.value, Cancel);
      ApplyKeepsValid(s.stream, cfg, action);
      assert after.stream == Apply(s.stream, cfg, action);
      assert after.stream.history == s.stream.history;
      hide Valid, InOrder, Apply;
      forall d | d in after.clients
        ensures StaysInOrder(d, after.stream, cfg)
      {
        if d in s.clients {
          StepKeepsOrder(d, s.stream, cfg, action);
        } else {
          assert d == after.clients[k];
          ReceivedInOrder(c, s.stream, cfg);
        }
      }
    }
  }

  lemma NextKeepsTidy(s: System, cfg: Config, move: Move)
    requires cfg.Normal() && Tidy(s, cfg)
    ensures Tidy(Next(s, cfg, move), cfg)
  {
    hide Valid, StaysInOrder, Apply, ConnectClient, DisconnectClient;
    match move
    case StreamStep(action) =>
      ApplyKeepsValid(s.stream, cfg, action);
      forall c | c in s.clients
        ensures StaysInOrder(c, Apply(s.stream, cfg, action), cfg)
      {
        StepKeepsOrder(c, s.stream, cfg, action);
      }
    case Arrive(scope) => NewClientIsInOrder(s.stream, cfg, scope);
    case Connect(k) =>
      if k < |s.clients| {
        ConnectKeepsTidy(s, cfg, k);
      }
    case Disconnect(k) =>
      if k < |s.clients| {
        DisconnectKeepsTidy(s, cfg, k);
      }
  }

  lemma NewClientIsInOrder(w: Stream, cfg: Config, scope: Scope)
    ensures StaysInOrder(Client(scope, [], None, false), w, cfg)
  {
  }

  lemma {:induction false} RunsAreTidy(cfg: Config, moves: seq<Move>)
    requires cfg.Normal()
    ensures Tidy(RunAll(cfg, moves), cfg)
  {
    hide Valid, Next, StaysInOrder;
    if moves == [] {
      RunsAreValid(cfg, []);
      assert Run(cfg, []) == NEW_STREAM;
    } else {
      RunsAreTidy(cfg, moves[..|moves| - 1]);
      NextKeepsTidy(RunAll(cfg, moves[..|moves| - 1]), cfg, moves[|moves| - 1]);
    }
  }

  /** Under any matcher and with any labels, whatever a client received over all its sessions
      are published records that match its scope, with strictly increasing cursors: where
      records are lost, none is doubled, reordered or made up. */
  lemma ClientsReceiveInOrder(cfg: Config, moves: seq<Move>, k: nat)
    requires cfg.Normal() && k < |RunAll(cfg, moves).clients|
    ensures var w, c := RunAll(cfg, moves).stream, RunAll(cfg, moves).clients[k];
      && (c.session.Some? ==> c.session.value < |w.subscribers|)
      && Ascending(Received(c, w))
      && forall r :: r in Received(c, w) ==> r in w.history && Matches(cfg.matcher, c.scope, r.scope)
  {
    RunsAreTidy(cfg, moves);
    var w, c := RunAll(cfg, moves).stream, RunAll(cfg, moves).clients[k];
    hide RunAll, Valid;
    assert StaysInOrder(c, w, cfg);
    ReceivedInOrder(c, w, cfg);
  }

  // ---------------------------------------------------------------------
  // Gaps
  // ---------------------------------------------------------------------

  /** Whether the next connection of a client would report a gap. */
  predicate WouldGap(w: Stream, cfg: Config, c: Client) {
    ReplayAfter(RetainedRecords(w.history, w.buckets, cfg, c.scope), ResumeCursor(c.earlier)).Gap?
  }

  /** A client learns of a gap exactly when it missed more than the stream retains: when
      at least bufferSize records of its scope were published after the last it received. */
  ghost predicate GapIsEviction(s: System, cfg: Config, k: nat)
    requires cfg.Normal() && k < |s.clients| && s.clients[k].earlier != []
  {
    var c := s.clients[k];
    var missed := LaterRecords(s.stream.history, c.earlier[|c.earlier| - 1].cursor, ByScope(c.scope));
    ConnectClient(s, cfg, k).clients[k].gapped <==> |missed| >= cfg.bufferSize
  }

  lemma GapMeansEviction(cfg: Config, moves: seq<Move>, k: nat)
    requires cfg.Normal() && cfg.matcher == Exact
    requires k < |RunAll(cfg, moves).clients| && LabelsAreNonEmpty(RunAll(cfg, moves).clients[k].scope)
    requires var c := RunAll(cfg, moves).clients[k]; c.session.None? && !c.gapped && c.earlier != []
    ensures GapIsEviction(RunAll(cfg, moves), cfg, k)
  {
    hide RunAll, Sound, GapIsEviction;
    RunsAreSound(cfg, moves);
    GapInSoundSystem(RunAll(cfg, moves), cfg, k);
  }

  lemma GapInSoundSystem(s: System, cfg: Config, k: nat)
    requires cfg.Normal() && cfg.matcher == Exact && Sound(s, cfg) && k < |s.clients|
    requires LabelsAreNonEmpty(s.clients[k].scope)
    requires s.clients[k].session.None? && !s.clients[k].gapped && s.clients[k].earlier != []
    ensures GapIsEviction(s, cfg, k)
  {
    hide LabelsAreNonEmpty, FollowsScope, Valid, ConnectClient, LaterRecords, WouldGap;
    ConnectReportsGap(s, cfg, k);
    assert FollowsScope(s.clients[k], s.stream);
    GapOfClient(s.stream, cfg, s.clients[k]);
  }

  lemma ConnectReportsGap(s: System, cfg: Config, k: nat)
    requires k < |s.clients| && s.clients[k].session.None? && !s.clients[k].gapped
    ensures ConnectClient(s, cfg, k).clients[k].gapped <==> WouldGap(s.stream, cfg, s.clients[k])
  {
    hide ReplayAfter, RetainedRecords, ResumeCursor;
  }

  lemma GapOfClient(w: Stream, cfg: Config, c: Client)
    requires cfg.Normal() && cfg.matcher == Exact && LabelsAreNonEmpty(c.scope) && Valid(w, cfg)
    requires FollowsScope(c, w) && c.session.None? && c.earlier != []
    ensures WouldGap(w, cfg, c)
       <==> |LaterRecords(w.history, c.earlier[|c.earlier| - 1].cursor, ByScope(c.scope))| >= cfg.bufferSize
  {
    hide LabelsAreNonEmpty, Contiguous, Select, ReplayAfter, ResumeCursor, RetainedRecords, LaterRecords, BucketsOf, StatsAgree;
    var i := PositionOfPart(c.earlier, Select(w.history, ByScope(c.scope)));
    GapOfReceived(w.history, cfg, c.scope, c.earlier, i);
  }
}

/** What a subscriber of the event stream observes over any run. */
module StreamDelivery {
  import opened Scopes
  import opened Records
  import opened EventStream
  import opened StreamInvariants

  lemma NumberedAscends(history: seq<Record>)
    requires Numbered(history)
    ensures Ascending(history)
  {
  }

  lemma AscendingAppend(a: seq<Record>, b: seq<Record>, border: nat)
    requires Ascending(a) && Ascending(b)
    requires forall r :: r in a ==> r.cursor <= border
    requires forall r :: r in b ==> r.cursor > border
    ensures Ascending(a + b)
  {
    forall i, j | 0 <= i < j < |a + b|
      ensures (a + b)[i].cursor < (a + b)[j].cursor
    {
      if i < |a| <= j {
        assert a[i] in a && b[j - |a|] in b;
      }
    }
  }

  lemma SelectionOfPart(history: seq<Record>, from: nat, to: nat, selection: Selection)
    requires Numbered(history) && from <= to <= |history|
    ensures Ascending(Select(history[from..to], selection))
    ensures forall r :: r in Select(history[from..to], selection) ==> from < r.cursor <= to
  {
    var part := history[from..to];
    assert forall k :: 0 <= k < |part| ==> part[k].cursor == from + k + 1;
    SelectAscends(part, selection);
    forall r | r in Select(part, selection)
      ensures from < r.cursor <= to
    {
      SelectMembers(part, selection, r);
    }
  }

  lemma FedAscends(u: Subscriber, cfg: Config, history: seq<Record>)
    requires cfg.Normal() && FedInOrder(u, cfg, history) && Numbered(history)
    ensures Ascending(u.fed)
  {
    hide BucketsOf, Select, Picks;
    var past := history[..u.joined];
    assert past == history[0..u.joined];
    var retained := RetainedAt(past, cfg, u.scope);
    SelectionOfPart(history, 0, u.joined, Retained(cfg.matcher, u.scope, BucketsOf(past, cfg.bufferSize)));
    SelectionOfPart(history, u.joined, u.upTo, ByMatch(cfg.matcher, u.scope));
    assert exists k: nat :: k <= |retained| && u.replayed == retained[k..] by {
      ReplayIsSuffix(retained, u.after);
    }
    AscendingAppend(u.replayed, Select(history[u.joined..u.upTo], ByMatch(cfg.matcher, u.scope)), u.joined);
  }

  lemma ReplayIsSuffix(retained: seq<Record>, after: string)
    requires ReplayAfter(retained, after).Replay?
    ensures exists k: nat :: k <= |retained| && ReplayAfter(retained, after).records == retained[k..]
  {
    assert retained[|retained|..] == [];
  }

  /** The replay a subscriber was promised when it joined, followed by every matching
      record published while it was subscribed. */
  ghost function Promised(u: Subscriber, cfg: Config, history: seq<Record>): seq<Record>
    requires u.joined <= u.upTo <= |history|
  {
    u.replayed + Select(history[u.joined..u.upTo], ByMatch(cfg.matcher, u.scope))
  }

  /** What a consumer has read is a prefix of what was promised, so the cursors it sees
      increase strictly. With nothing in flight it has read all of it. */
  ghost predicate ReadsInOrder(u: Subscriber, cfg: Config, history: seq<Record>)
    requires cfg.Normal()
  {
    && u.joined <= u.upTo <= |history|
    && (u.registered ==> u.upTo == |history|)
    && ReplayAfter(RetainedAt(history[..u.joined], cfg, u.scope), u.after) == Replay(u.replayed)
    && u.consumed <= Promised(u, cfg, history)
    && (u.phase == Pumping && u.outbox + u.Hand() + u.replay + u.inbox == [] ==> u.consumed == Promised(u, cfg, history))
    && Ascending(u.consumed)
  }

  /** In-order delivery for every matcher and every interleaving. */
  lemma DeliveryIsInOrder(cfg: Config, actions: seq<Action>, i: nat)
    requires cfg.Normal() && i < |Run(cfg, actions).subscribers|
    ensures ReadsInOrder(Run(cfg, actions).subscribers[i], cfg, Run(cfg, actions).history)
  {
    RunsAreValid(cfg, actions);
    hide Run, Orderly;
    OrderlyReadsInOrder(Run(cfg, actions).subscribers[i], cfg, Run(cfg, actions).history);
  }

  lemma OrderlyReadsInOrder(u: Subscriber, cfg: Config, history: seq<Record>)
    requires cfg.Normal() && Orderly(u, cfg, history) && Numbered(history)
    ensures ReadsInOrder(u, cfg, history)
  {
    FedAscends(u, cfg, history);
    hide BucketsOf, RetainedAt, ReplayAfter, Select;
    NothingInFlight(u);
    ConsumedComesFirst(u);
  }

  lemma ConsumedComesFirst(u: Subscriber)
    requires DeliversInOrder(u)
    ensures u.consumed <= u.fed
  {
  }

  lemma NothingInFlight(u: Subscriber)
    ensures u.outbox + u.Hand() + u.replay + u.inbox == [] ==> u.Pipeline() == u.consumed
  {
    assert |u.Pipeline()| == |u.consumed| + |u.outbox + u.Hand() + u.replay + u.inbox|;
  }

  /** A bucket is the last bufferSize records of its scope, in publication order. */
  lemma BucketsHoldTheLatest(cfg: Config, actions: seq<Action>, s: Scope)
    requires cfg.Normal()
    ensures var w := Run(cfg, actions);
            Bucket(w.buckets, s) == LastN(Select(w.history, ByScope(s)), cfg.bufferSize) && Ascending(Bucket(w.buckets, s))
  {
    var w := Run(cfg, actions);
    RunsAreValid(cfg, actions);
    if s !in ScopesOf(w.history) {
      UnseenScopeSelectsNothing(w.history, s);
    }
    NumberedAscends(w.history);
    SelectAscends(w.history, ByScope(s));
  }

  /** Counters, cursors and channels in every reachable state. */
  lemma BookkeepingHolds(cfg: Config, actions: seq<Action>)
    requires cfg.Normal()
    ensures var w := Run(cfg, actions);
      && w.stats.published == w.nextCursor == |w.history|
      && w.stats.buffered == SumLengths(w.buckets, w.buckets.Keys)
      && w.stats.active == CountRegistered(w.subscribers)
      && w.stats.resumed == CountResumed(w.subscribers)
      && |w.subscribers| == w.stats.active + w.stats.slowConsumers + w.stats.disconnects
      && !w.panicked
      && (forall u :: u in w.subscribers ==> |u.inbox| <= cfg.queueSize && |u.outbox| <= cfg.queueSize)
  {
    RunsAreValid(cfg, actions);
    var w := Run(cfg, actions);
    forall u | u in w.subscribers
      ensures |u.inbox| <= cfg.queueSize && |u.outbox| <= cfg.queueSize
    {
      assert Orderly(u, cfg, w.history);
    }
  }

  function CountSubscribes(actions: seq<Action>): nat {
    if actions == [] then 0
    else
      var last := |actions| - 1;
      CountSubscribes(actions[..last]) + if actions[last].SubscribeTo? then 1 else 0
  }

  /** Every subscribe call either made a subscription or counted a cursor that was not found. */
  lemma {:induction false} SubscribesAreCounted(cfg: Config, actions: seq<Action>)
    requires cfg.Normal()
    ensures CountSubscribes(actions) == |Run(cfg, actions).subscribers| + Run(cfg, actions).stats.cursorsNotFound
  {
    hide ReplayAfter, RetainedRecords, CountSlow, CountRegistered, Receives, TakeTurn;
    if actions != [] {
      SubscribesAreCounted(cfg, actions[..|actions| - 1]);
    }
  }

  // ---------------------------------------------------------------------
  // What is published, offered and subscribed to
  // ---------------------------------------------------------------------

  /** The record carries the event: its scope, name, payload and metadata, the time it was
      published, and its own time or, without one, the time of publication. */
  ghost predicate Carries(r: Record, action: Action, cursor: nat) {
    && action.PublishEvent? && r.cursor == cursor && r.scope == action.scope && r.publishedAt == action.now
    && r.event.name == action.event.name && r.event.payload == action.event.payload
    && r.event.metadata == action.event.metadata
    && (action.event.timestamp != 0 ==> r.event.timestamp == action.event.timestamp)
    && (action.event.timestamp == 0 ==> r.event.timestamp == action.now)
  }

  function Publications(actions: seq<Action>): seq<Action> {
    if actions == [] then []
    else
      var last := |actions| - 1;
      Publications(actions[..last]) + if actions[last].PublishEvent? then [actions[last]] else []
  }

  /** The history holds one record for every publication, in order, and each carries the
      event that was published. */
  lemma {:induction false} HistoryIsPublications(cfg: Config, actions: seq<Action>)
    requires cfg.Normal()
    ensures var history, published := Run(cfg, actions).history, Publications(actions);
      |history| == |published| && forall k :: 0 <= k < |history| ==> Carries(history[k], published[k], k + 1)
  {
    if actions != [] {
      var last := |actions| - 1;
      var w, action := Run(cfg, actions[..last]), actions[last];
      HistoryIsPublications(cfg, actions[..last]);
      RunsAreValid(cfg, actions[..last]);
      hide Run, Carries;
      if action.PublishEvent? {
        PublishedCarries(w, cfg, action);
      } else {
        OnlyPublishingIsHistory(w, cfg, action);
      }
    }
  }

  lemma PublishedCarries(w: Stream, cfg: Config, action: Action)
    requires cfg.Normal() && action.PublishEvent? && w.nextCursor == |w.history|
    ensures var v := Apply(w, cfg, action);
      |v.history| == |w.history| + 1 && v.history[..|w.history|] == w.history
      && Carries(v.history[|w.history|], action, |w.history| + 1)
  {
    hide DeliverAll, CountSlow, CountRegistered, BucketWith, Receives;
  }

  lemma OnlyPublishingIsHistory(w: Stream, cfg: Config, action: Action)
    requires cfg.Normal() && !action.PublishEvent?
    ensures Apply(w, cfg, action).history == w.history
  {
    hide ReplayAfter, RetainedRecords, CountRegistered, TakeTurn;
  }

  /** What a publication does to one subscriber: a matching one with room in its queue is
      offered the record behind what waits there, a matching one without room is dropped,
      and nobody else notices. */
  lemma PublishReaches(w: Stream, cfg: Config, scope: Scope, event: Event, now: int, i: nat)
    requires cfg.Normal() && i < |w.subscribers|
    ensures var after, u := Publish(w, cfg, scope, event, now), w.subscribers[i];
      && |after.subscribers| == |w.subscribers| && |after.history| == |w.history| + 1
      && var v, r := after.subscribers[i], after.history[|w.history|];
      && v.scope == u.scope && v.phase == u.phase && v.replay == u.replay && v.hand == u.hand
      && v.outbox == u.outbox && v.consumed == u.consumed && v.cancelled == u.cancelled
      && (!(u.registered && Matches(cfg.matcher, u.scope, scope)) ==>
            v.inbox == u.inbox && v.registered == u.registered && v.closed == u.closed)
      && (u.registered && Matches(cfg.matcher, u.scope, scope) && |u.inbox| < cfg.queueSize ==>
            v.inbox == u.inbox + [r] && v.registered && v.closed == u.closed)
      && (u.registered && Matches(cfg.matcher, u.scope, scope) && |u.inbox| >= cfg.queueSize ==>
            v.inbox == u.inbox && !v.registered && v.closed)
  {
    hide Matches, CountSlow, CountRegistered, BucketWith;
  }

  /** A subscription as it starts: registered, its pump running, nothing in its queues, and
      without a cursor nothing to replay. */
  ghost predicate Starts(u: Subscriber, scope: Scope, after: string) {
    && u.scope == scope && u.after == after && u.registered && !u.closed && !u.cancelled
    && u.phase == Pumping && u.hand.None? && !u.outClosed
    && u.inbox == [] && u.outbox == [] && u.consumed == []
    && (after == "" ==> u.replay == [])
  }

  /** A subscribe call is refused and counted, or adds one subscription that starts. Without
      a cursor it is never refused, and nothing else changes either way. */
  lemma SubscribeMeaning(w: Stream, cfg: Config, scope: Scope, after: string)
    ensures var v := Subscribe(w, cfg, scope, after);
      v.history == w.history && v.buckets == w.buckets && v.nextCursor == w.nextCursor
    ensures var v, n := Subscribe(w, cfg, scope, after), |w.subscribers|;
      if |v.subscribers| == n then
        after != "" && v == w.(stats := w.stats.(cursorsNotFound := w.stats.cursorsNotFound + 1))
      else
        && |v.subscribers| == n + 1 && v.subscribers[..n] == w.subscribers && Starts(v.subscribers[n], scope, after)
        && v.stats.resumed == w.stats.resumed + (if after == "" then 0 else 1)
        && v.stats.cursorsNotFound == w.stats.cursorsNotFound
  {
    hide RetainedRecords, CountRegistered, FindCursor;
  }

  /** A pump that winds down: it may hold one more record, then leaves. */
  function WindDown(u: Subscriber, cfg: Config): Subscriber {
    TakeTurn(TakeTurn(TakeTurn(TakeTurn(u, cfg, Take), cfg, Quit), cfg, Unregister), cfg, Close)
  }

  /** A subscriber that was cancelled or dropped can stop from any reachable state in four
      turns of its own pump, whatever is still queued: its records channel is closed, the
      stream forgets it, and what it had sent stays readable. */
  lemma StopsInFourTurns(cfg: Config, actions: seq<Action>, i: nat)
    requires cfg.Normal() && i < |Run(cfg, actions).subscribers| && Told(Run(cfg, actions).subscribers[i])
    ensures var u := Run(cfg, actions).subscribers[i];
            var v := WindDown(u, cfg);
            v.phase == Stopped && v.outClosed && !v.registered && v.consumed == u.consumed && v.outbox == u.outbox
  {
    RunsAreValid(cfg, actions);
    var w := Run(cfg, actions);
    assert Orderly(w.subscribers[i], cfg, w.history);
    hide Run, Valid, FedInOrder, DeliversInOrder;
    PumpStops(w.subscribers[i], cfg);
  }

  lemma PumpStops(u: Subscriber, cfg: Config)
    requires Told(u) && Disciplined(u, cfg)
    ensures var v := WindDown(u, cfg);
            v.phase == Stopped && v.outClosed && !v.registered && v.consumed == u.consumed && v.outbox == u.outbox
  {
    var a := TakeTurn(u, cfg, Take);
    assert a.phase == Pumping ==> a.hand.Some? || a.replay == [];
    var b := TakeTurn(a, cfg, Quit);
    assert b.phase != Pumping && Told(b);
    var c := TakeTurn(b, cfg, Unregister);
    assert c.phase == Closing || c.phase == Stopped;
  }

  /** How many turns that change something the pump of a subscriber can still take, if it is
      offered no further record. */
  function Work(u: Subscriber): nat {
    match u.phase
    case Pumping => 3 + 2 * |u.replay + u.inbox| + |u.Hand()|
    case Leaving => 2
    case Closing => 1
    case Stopped => 0
  }

  const PUMP_TURNS := {Take, Send, Quit, Unregister, Close}
  const DELIVERY_TURNS := {Take, Send, Consume}

  /** How many turns of these kinds, in a continuation of a run, changed a subscriber. */
  function TurnsTaken(cfg: Config, actions: seq<Action>, more: seq<Action>, i: nat, turns: set<Turn>): nat
    requires cfg.Normal()
  {
    if more == [] then 0
    else
      var last := |more| - 1;
      var w := Run(cfg, actions + more[..last]);
      TurnsTaken(cfg, actions, more[..last], i, turns) + if MovesOne(w, cfg, more[last], i, turns) then 1 else 0
  }

  predicate MovesOne(w: Stream, cfg: Config, action: Action, i: nat, turns: set<Turn>) {
    && action.SubscriberTurn? && action.subscriber == i && i < |w.subscribers| && action.turn in turns
    && TakeTurn(w.subscribers[i], cfg, action.turn) != w.subscribers[i]
  }

  /** How a subscriber can change, given how many turns of its pump changed something. */
  ghost predicate Winds(u: Subscriber, v: Subscriber, turns: nat) {
    && (Told(u) ==> Told(v))
    && u.fed <= v.fed
    && turns + Work(v) + 2 * |u.fed| <= Work(u) + 2 * |v.fed|
    && u.consumed + u.outbox <= v.consumed + v.outbox
    && (u.closed ==> v.closed)
    && (!u.registered ==> !v.registered && v.fed == u.fed)
  }

  lemma TurnCosts(u: Subscriber, cfg: Config, turn: Turn)
    ensures var v := TakeTurn(u, cfg, turn); Work(v) + (if turn in PUMP_TURNS && v != u then 1 else 0) <= Work(u)
  {
  }

  lemma TurnLeavesSent(u: Subscriber, cfg: Config, turn: Turn)
    ensures var v := TakeTurn(u, cfg, turn); u.consumed + u.outbox <= v.consumed + v.outbox
  {
    if turn == Consume && u.outbox != [] {
      ShiftLeft(u.consumed, u.outbox);
    } else if turn == Send && u.hand.Some? {
      assert u.consumed + (u.outbox + [u.hand.value]) == u.consumed + u.outbox + [u.hand.value];
    }
  }

  lemma TurnNeverReturns(u: Subscriber, cfg: Config, turn: Turn)
    ensures var v := TakeTurn(u, cfg, turn);
      v.fed == u.fed && (Told(u) ==> Told(v)) && (u.closed ==> v.closed) && (!u.registered ==> !v.registered)
  {
  }

  lemma TurnWinds(u: Subscriber, cfg: Config, turn: Turn)
    ensures var v := TakeTurn(u, cfg, turn); Winds(u, v, if turn in PUMP_TURNS && v != u then 1 else 0)
  {
    TurnCosts(u, cfg, turn);
    TurnLeavesSent(u, cfg, turn);
    TurnNeverReturns(u, cfg, turn);
    hide Work, TakeTurn, Told;
  }

  lemma DeliveryWinds(u: Subscriber, cfg: Config, r: Record)
    ensures Winds(u, Deliver(u, cfg, r), 0)
  {
  }

  lemma StepWinds(w: Stream, cfg: Config, action: Action, i: nat)
    requires cfg.Normal() && i < |w.subscribers|
    ensures var after := Apply(w, cfg, action);
      i < |after.subscribers| && Winds(w.subscribers[i], after.subscribers[i], if MovesOne(w, cfg, action, i, PUMP_TURNS) then 1 else 0)
  {
    hide Deliver, TakeTurn, Winds, ReplayAfter, RetainedRecords, CountSlow, CountRegistered, Receives;
    match action
    case PublishEvent(scope, event, now) => DeliveryWinds(w.subscribers[i], cfg, NextRecord(w, scope, event, now));
    case SubscribeTo(scope, after) => NothingWinds(w.subscribers[i]);
    case SubscriberTurn(k, turn) =>
      if k == i {
        TurnWinds(w.subscribers[i], cfg, turn);
      } else {
        NothingWinds(w.subscribers[i]);
      }
  }

  lemma NothingWinds(u: Subscriber)
    ensures Winds(u, u, 0)
  {
  }

  lemma WindsOn(u: Subscriber, v: Subscriber, x: Subscriber, m: nat, n: nat)
    requires Winds(u, v, m) && Winds(v, x, n)
    ensures Winds(u, x, m + n)
  {
    hide Work;
  }

  lemma {:induction false} RunsWind(cfg: Config, actions: seq<Action>, more: seq<Action>, i: nat)
    requires cfg.Normal() && i < |Run(cfg, actions).subscribers|
    ensures i < |Run(cfg, actions + more).subscribers|
    ensures Winds(Run(cfg, actions).subscribers[i], Run(cfg, actions + more).subscribers[i], TurnsTaken(cfg, actions, more, i, PUMP_TURNS))
  {
    hide Apply, Winds, MovesOne;
    if more == [] {
      assert actions + more == actions;
      NothingWinds(Run(cfg, actions).subscribers[i]);
    } else {
      var last := |more| - 1;
      RunsWind(cfg, actions, more[..last], i);
      var w := Run(cfg, actions + more[..last]);
      StepWinds(w, cfg, more[last], i);
      assert (actions + more)[..|actions + more| - 1] == actions + more[..last];
      WindsOn(Run(cfg, actions).subscribers[i], w.subscribers[i], Run(cfg, actions + more).subscribers[i],
        TurnsTaken(cfg, actions, more[..last], i, PUMP_TURNS), if MovesOne(w, cfg, more[last], i, PUMP_TURNS) then 1 else 0);
    }
  }

  /** In every continuation of a run, a subscriber that was cancelled or dropped stays so.
      Until it has stopped its pump can move, and it can move no more often than what it had
      to do and what it is still offered account for: two turns a record, and three to leave.
      So it stops in every schedule that keeps giving it such turns. A dropped subscriber is
      offered nothing more, and what was sent to a consumer is never taken back. */
  lemma StopsWhenTold(cfg: Config, actions: seq<Action>, more: seq<Action>, i: nat)
    requires cfg.Normal() && i < |Run(cfg, actions).subscribers| && Told(Run(cfg, actions).subscribers[i])
    ensures i < |Run(cfg, actions + more).subscribers|
    ensures var u, v := Run(cfg, actions).subscribers[i], Run(cfg, actions + more).subscribers[i];
      && Told(v) && u.fed <= v.fed && (u.closed ==> v.fed == u.fed)
      && (v.phase != Stopped ==> exists turn :: turn in PUMP_TURNS && TakeTurn(v, cfg, turn) != v)
      && TurnsTaken(cfg, actions, more, i, PUMP_TURNS) + Work(v) <= Work(u) + 2 * (|v.fed| - |u.fed|)
      && (v.phase == Stopped <==> Work(v) == 0)
      && (v.phase == Stopped ==> v.outClosed && !v.registered)
      && u.consumed + u.outbox <= v.consumed + v.outbox
  {
    hide Run, TurnsTaken;
    RunsWind(cfg, actions, more, i);
    RunsAreValid(cfg, actions);
    RunsAreValid(cfg, actions + more);
    var w, x := Run(cfg, actions), Run(cfg, actions + more);
    assert Orderly(w.subscribers[i], cfg, w.history) && Orderly(x.subscribers[i], cfg, x.history);
    hide Valid, FedInOrder, DeliversInOrder;
    if x.subscribers[i].phase != Stopped {
      ToldPumpMoves(x.subscribers[i], cfg);
    }
  }

  lemma ToldPumpMoves(u: Subscriber, cfg: Config)
    requires Told(u) && u.phase != Stopped
    ensures exists turn :: turn in PUMP_TURNS && TakeTurn(u, cfg, turn) != u
  {
    var turn :=
      if u.phase == Leaving then Unregister
      else if u.phase == Closing then Close
      else if u.hand.Some? || u.replay == [] then Quit
      else Take;
    assert turn in PUMP_TURNS && TakeTurn(u, cfg, turn) != u;
  }

  /** How many deliveries are still to be made with what a subscriber has in flight: a queued
      record is taken, sent and consumed. */
  function InFlight(u: Subscriber): nat {
    |u.outbox| + 2 * |u.Hand()| + 3 * |u.replay + u.inbox|
  }

  /** How the records in flight change while the subscriber is not told to stop. */
  ghost predicate Progresses(u: Subscriber, v: Subscriber, turns: nat) {
    !Told(v) ==> !Told(u) && u.fed <= v.fed && turns + InFlight(v) == InFlight(u) + 3 * (|v.fed| - |u.fed|)
  }

  lemma TurnCarries(u: Subscriber, cfg: Config, turn: Turn)
    ensures var v := TakeTurn(u, cfg, turn); Progresses(u, v, if turn in DELIVERY_TURNS && v != u then 1 else 0)
  {
  }

  lemma DeliveryCarries(u: Subscriber, cfg: Config, r: Record)
    ensures Progresses(u, Deliver(u, cfg, r), 0)
  {
  }

  lemma NothingCarries(u: Subscriber)
    ensures Progresses(u, u, 0)
  {
  }

  lemma StepCarries(w: Stream, cfg: Config, action: Action, i: nat)
    requires cfg.Normal() && i < |w.subscribers|
    ensures var after := Apply(w, cfg, action);
      i < |after.subscribers|
      && Progresses(w.subscribers[i], after.subscribers[i], if MovesOne(w, cfg, action, i, DELIVERY_TURNS) then 1 else 0)
  {
    hide Deliver, TakeTurn, Progresses, ReplayAfter, RetainedRecords, CountSlow, CountRegistered, Receives;
    match action
    case PublishEvent(scope, event, now) => DeliveryCarries(w.subscribers[i], cfg, NextRecord(w, scope, event, now));
    case SubscribeTo(scope, after) => NothingCarries(w.subscribers[i]);
    case SubscriberTurn(k, turn) =>
      if k == i {
        TurnCarries(w.subscribers[i], cfg, turn);
      } else {
        NothingCarries(w.subscribers[i]);
      }
  }

  lemma CarriesOn(u: Subscriber, v: Subscriber, x: Subscriber, m: nat, n: nat)
    requires Progresses(u, v, m) && Progresses(v, x, n)
    ensures Progresses(u, x, m + n)
  {
    hide InFlight;
  }

  lemma {:induction false} RunsCarry(cfg: Config, actions: seq<Action>, more: seq<Action>, i: nat)
    requires cfg.Normal() && i < |Run(cfg, actions).subscribers|
    ensures i < |Run(cfg, actions + more).subscribers|
    ensures Progresses(Run(cfg, actions).subscribers[i], Run(cfg, actions + more).subscribers[i],
                    TurnsTaken(cfg, actions, more, i, DELIVERY_TURNS))
  {
    hide Apply, Progresses, MovesOne;
    if more == [] {
      assert actions + more == actions;
      NothingCarries(Run(cfg, actions).subscribers[i]);
    } else {
      var last := |more| - 1;
      RunsCarry(cfg, actions, more[..last], i);
      var w := Run(cfg, actions + more[..last]);
      StepCarries(w, cfg, more[last], i);
      assert (actions + more)[..|actions + more| - 1] == actions + more[..last];
      CarriesOn(Run(cfg, actions).subscribers[i], w.subscribers[i], Run(cfg, actions + more).subscribers[i],
        TurnsTaken(cfg, actions, more[..last], i, DELIVERY_TURNS),
        if MovesOne(w, cfg, more[last], i, DELIVERY_TURNS) then 1 else 0);
    }
  }

  /** In every continuation of a run, while a subscriber is neither cancelled nor dropped, its
      pump runs. With anything in flight a record can be taken, sent or consumed, each such
      step brings one delivery nearer, and each record offered is worth three of them: so it
      reads everything it is offered in every schedule that keeps giving it such turns. With
      nothing in flight it has read all it was promised. */
  lemma DeliversUntilTold(cfg: Config, actions: seq<Action>, more: seq<Action>, i: nat)
    requires cfg.Normal() && i < |Run(cfg, actions).subscribers| && i < |Run(cfg, actions + more).subscribers|
    requires !Told(Run(cfg, actions + more).subscribers[i])
    ensures var u, v := Run(cfg, actions).subscribers[i], Run(cfg, actions + more).subscribers[i];
      var history := Run(cfg, actions + more).history;
      && v.phase == Pumping && v.registered && u.fed <= v.fed
      && v.joined <= v.upTo == |history| && v.fed == Promised(v, cfg, history)
      && TurnsTaken(cfg, actions, more, i, DELIVERY_TURNS) + InFlight(v) == InFlight(u) + 3 * (|v.fed| - |u.fed|)
      && (InFlight(v) > 0 ==> exists turn :: turn in DELIVERY_TURNS && TakeTurn(v, cfg, turn) != v)
      && (InFlight(v) == 0 <==> v.consumed == v.fed)
  {
    hide Run, TurnsTaken;
    RunsCarry(cfg, actions, more, i);
    RunsAreValid(cfg, actions + more);
    var x := Run(cfg, actions + more);
    assert Orderly(x.subscribers[i], cfg, x.history);
    var v := x.subscribers[i];
    hide Valid, Progresses, BucketsOf, ReplayAfter, RetainedAt, Select;
    UntoldPumps(v, cfg);
    assert Progresses(Run(cfg, actions).subscribers[i], v, TurnsTaken(cfg, actions, more, i, DELIVERY_TURNS));
    CarriedUntold(Run(cfg, actions).subscribers[i], v, TurnsTaken(cfg, actions, more, i, DELIVERY_TURNS));
  }

  lemma CarriedUntold(u: Subscriber, v: Subscriber, turns: nat)
    requires Progresses(u, v, turns) && !Told(v)
    ensures u.fed <= v.fed && turns + InFlight(v) == InFlight(u) + 3 * (|v.fed| - |u.fed|)
  {
  }

  lemma UntoldPumps(u: Subscriber, cfg: Config)
    requires cfg.Normal() && !Told(u) && Disciplined(u, cfg) && DeliversInOrder(u)
    ensures u.phase == Pumping && u.registered
    ensures InFlight(u) > 0 ==> exists turn :: turn in DELIVERY_TURNS && TakeTurn(u, cfg, turn) != u
    ensures InFlight(u) == 0 <==> u.consumed == u.fed
  {
    assert |u.Pipeline()| == |u.consumed| + |u.outbox| + |u.Hand()| + |u.replay| + |u.inbox|;
    if InFlight(u) == 0 {
      assert u.Pipeline() == u.consumed;
    } else {
      var turn := if u.outbox != [] then Consume else if u.hand.Some? then Send else Take;
      assert turn in DELIVERY_TURNS && TakeTurn(u, cfg, turn) != u;
    }
  }
}

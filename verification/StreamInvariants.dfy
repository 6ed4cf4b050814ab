/** What every reachable state of the event stream keeps, for any matcher and every
    interleaving of publishers, subscribers, pumps, consumers and cancellations. */
module StreamInvariants {
  import opened Wrappers
  import opened Scopes
  import opened Records
  import opened EventStream

  // ---------------------------------------------------------------------
  // Buckets are suffixes of the history of their scope
  // ---------------------------------------------------------------------

  function ScopesOf(history: seq<Record>): set<Scope> {
    set r | r in history :: r.scope
  }

  function BucketsOf(history: seq<Record>, bufferSize: nat): Buckets {
    map s | s in ScopesOf(history) :: LastN(Select(history, ByScope(s)), bufferSize)
  }

  lemma ScopesGrow(history: seq<Record>, r: Record)
    ensures ScopesOf(history + [r]) == ScopesOf(history) + {r.scope}
  {
    forall s
      ensures s in ScopesOf(history + [r]) <==> s in ScopesOf(history) + {r.scope}
    {
      assert forall x :: x in history + [r] <==> x in history || x == r;
    }
  }

  lemma {:induction false} UnseenScopeSelectsNothing(history: seq<Record>, s: Scope)
    requires s !in ScopesOf(history)
    ensures Select(history, ByScope(s)) == []
  {
    if history != [] {
      var last := |history| - 1;
      assert history[last] in history;
      assert forall r :: r in history[..last] ==> r in history;
      UnseenScopeSelectsNothing(history[..last], s);
    }
  }

  lemma SameMap<K, V>(a: map<K, V>, b: map<K, V>)
    requires a.Keys == b.Keys && forall k :: k in a ==> a[k] == b[k]
    ensures a == b
  {
  }

  /** Publishing evicts one record of the scope's own bucket, and only when it is full. */
  lemma BucketsGrow(history: seq<Record>, bufferSize: nat, r: Record)
    requires bufferSize > 0
    ensures var kept := Bucket(BucketsOf(history, bufferSize), r.scope);
      && |kept| <= bufferSize
      && BucketsOf(history + [r], bufferSize)
         == BucketsOf(history, bufferSize)[r.scope := BucketWith(kept, bufferSize, r)]
  {
    hide Select, LastN, BucketWith, ScopesOf, BucketsOf, Bucket;
    BucketIsLatest(history, bufferSize, r.scope);
    LastNIsBounded(Select(history, ByScope(r.scope)), bufferSize);
    var before, after := BucketsOf(history, bufferSize), BucketsOf(history + [r], bufferSize);
    var grown := before[r.scope := BucketWith(Bucket(before, r.scope), bufferSize, r)];
    ScopesGrow(history, r);
    BucketKeys(history, bufferSize);
    BucketKeys(history + [r], bufferSize);
    forall s | s in after
      ensures after[s] == grown[s]
    {
      BucketGrows(history, bufferSize, r, s);
    }
    SameMap(after, grown);
  }

  lemma BucketKeys(history: seq<Record>, bufferSize: nat)
    ensures BucketsOf(history, bufferSize).Keys == ScopesOf(history)
    ensures forall s :: s in ScopesOf(history) ==>
      BucketsOf(history, bufferSize)[s] == Bucket(BucketsOf(history, bufferSize), s)
  {
  }

  lemma BucketIsLatest(history: seq<Record>, bufferSize: nat, s: Scope)
    ensures Bucket(BucketsOf(history, bufferSize), s) == LastN(Select(history, ByScope(s)), bufferSize)
  {
    hide Select;
    if s !in ScopesOf(history) {
      UnseenScopeSelectsNothing(history, s);
    }
  }

  lemma BucketGrows(history: seq<Record>, bufferSize: nat, r: Record, s: Scope)
    requires bufferSize > 0
    ensures var before, after := BucketsOf(history, bufferSize), BucketsOf(history + [r], bufferSize);
      Bucket(after, s) == if s == r.scope then BucketWith(Bucket(before, s), bufferSize, r) else Bucket(before, s)
  {
    hide Select, Bucket, BucketsOf, BucketWith, LastN;
    BucketIsLatest(history, bufferSize, s);
    BucketIsLatest(history + [r], bufferSize, s);
    SelectOne(history, ByScope(s), r);
    LastNGrows(Select(history, ByScope(s)), bufferSize, r);
    assert Select(history, ByScope(s)) + [] == Select(history, ByScope(s));
  }

  lemma LastNIsBounded(q: seq<Record>, n: nat)
    ensures |LastN(q, n)| <= n
  {
  }

  lemma LastNGrows(q: seq<Record>, n: nat, r: Record)
    requires n > 0
    ensures LastN(q + [r], n) == BucketWith(LastN(q, n), n, r)
  {
  }

  // ---------------------------------------------------------------------
  // Counting buffered records and subscribers
  // ---------------------------------------------------------------------

  ghost function SumLengths(buckets: Buckets, scopes: set<Scope>): nat
    requires scopes <= buckets.Keys
  {
    if scopes == {} then 0
    else
      var s :| s in scopes;
      |buckets[s]| + SumLengths(buckets, scopes - {s})
  }

  lemma {:induction false} SumWithout(buckets: Buckets, scopes: set<Scope>, s: Scope)
    requires scopes <= buckets.Keys && s in scopes
    ensures SumLengths(buckets, scopes) == |buckets[s]| + SumLengths(buckets, scopes - {s})
    decreases scopes
  {
    var t :| t in scopes && SumLengths(buckets, scopes) == |buckets[t]| + SumLengths(buckets, scopes - {t});
    if t != s {
      SumWithout(buckets, scopes - {t}, s);
      SumWithout(buckets, scopes - {s}, t);
      assert scopes - {t} - {s} == scopes - {s} - {t};
    }
  }

  lemma {:induction false} SumOfSame(a: Buckets, b: Buckets, scopes: set<Scope>)
    requires scopes <= a.Keys && scopes <= b.Keys
    requires forall s :: s in scopes ==> |a[s]| == |b[s]|
    ensures SumLengths(a, scopes) == SumLengths(b, scopes)
    decreases scopes
  {
    if scopes != {} {
      var s :| s in scopes;
      SumWithout(a, scopes, s);
      SumWithout(b, scopes, s);
      SumOfSame(a, b, scopes - {s});
    }
  }

  lemma SumAfterUpdate(buckets: Buckets, s: Scope, records: seq<Record>)
    ensures SumLengths(buckets[s := records], buckets.Keys + {s})
         == SumLengths(buckets, buckets.Keys) - |Bucket(buckets, s)| + |records|
  {
    var after := buckets[s := records];
    SumWithout(after, buckets.Keys + {s}, s);
    assert buckets.Keys + {s} - {s} == buckets.Keys - {s};
    SumOfSame(buckets, after, buckets.Keys - {s});
    if s in buckets {
      SumWithout(buckets, buckets.Keys, s);
    } else {
      assert buckets.Keys - {s} == buckets.Keys;
    }
  }

  lemma {:induction false} CountAfterDelivery(subscribers: seq<Subscriber>, cfg: Config, r: Record)
    ensures CountRegistered(DeliverAll(subscribers, cfg, r)) == CountRegistered(subscribers) - CountSlow(subscribers, cfg, r)
  {
    if subscribers != [] {
      var last := |subscribers| - 1;
      CountAfterDelivery(subscribers[..last], cfg, r);
      assert DeliverAll(subscribers, cfg, r)[..last] == DeliverAll(subscribers[..last], cfg, r);
    }
  }

  lemma {:induction false} CountAfterUpdate(subscribers: seq<Subscriber>, i: nat, u: Subscriber)
    requires i < |subscribers|
    ensures CountRegistered(subscribers[i := u]) == CountRegistered(subscribers)
      - (if subscribers[i].registered then 1 else 0) + (if u.registered then 1 else 0)
  {
    var last := |subscribers| - 1;
    if i < last {
      CountAfterUpdate(subscribers[..last], i, u);
      assert subscribers[i := u][..last] == subscribers[..last][i := u];
    } else {
      assert subscribers[i := u][..last] == subscribers[..last];
    }
  }

  function CountResumed(subscribers: seq<Subscriber>): nat {
    if subscribers == [] then 0
    else
      var last := |subscribers| - 1;
      CountResumed(subscribers[..last]) + if subscribers[last].after == "" then 0 else 1
  }

  lemma {:induction false} ResumedStays(before: seq<Subscriber>, after: seq<Subscriber>)
    requires |before| == |after| && forall i :: 0 <= i < |before| ==> after[i].after == before[i].after
    ensures CountResumed(before) == CountResumed(after)
  {
    if before != [] {
      var last := |before| - 1;
      ResumedStays(before[..last], after[..last]);
    }
  }

  /** The counters tell the truth. */
  ghost predicate StatsAgree(w: Stream) {
    && w.stats.published == |w.history|
    && w.stats.buffered == SumLengths(w.buckets, w.buckets.Keys)
    && w.stats.active == CountRegistered(w.subscribers)
    && w.stats.resumed == CountResumed(w.subscribers)
    && |w.subscribers| == w.stats.active + w.stats.slowConsumers + w.stats.disconnects
  }

  // ---------------------------------------------------------------------
  // One subscriber
  // ---------------------------------------------------------------------

  /** The records a stream with this history retains for a subscription. */
  ghost function RetainedAt(history: seq<Record>, cfg: Config, scope: Scope): seq<Record>
    requires cfg.Normal()
  {
    RetainedRecords(history, BucketsOf(history, cfg.bufferSize), cfg, scope)
  }

  /** What a subscriber has been fed: the replay it was given when it joined, and then
      every later matching record while it was subscribed. */
  ghost predicate FedInOrder(u: Subscriber, cfg: Config, history: seq<Record>)
    requires cfg.Normal()
  {
    && u.joined <= u.upTo <= |history|
    && (u.registered ==> u.upTo == |history|)
    && ReplayAfter(RetainedAt(history[..u.joined], cfg, u.scope), u.after) == Replay(u.replayed)
    && u.fed == u.replayed + Select(history[u.joined..u.upTo], ByMatch(cfg.matcher, u.scope))
  }

  /** Nothing a pump holds is out of order, and nothing is lost before it leaves. */
  ghost predicate DeliversInOrder(u: Subscriber) {
    && u.consumed + u.outbox <= u.fed
    && (u.phase == Pumping ==> u.Pipeline() == u.fed)
  }

  ghost predicate Disciplined(u: Subscriber, cfg: Config) {
    && (u.registered <==> !u.closed)
    && (u.hand.Some? ==> u.phase == Pumping)
    && (u.phase == Leaving ==> Told(u))
    && (u.phase == Closing || u.phase == Stopped ==> !u.registered)
    && (u.outClosed <==> u.phase == Stopped)
    && |u.inbox| <= cfg.queueSize && |u.outbox| <= cfg.queueSize
  }

  ghost predicate Orderly(u: Subscriber, cfg: Config, history: seq<Record>)
    requires cfg.Normal()
  {
    FedInOrder(u, cfg, history) && DeliversInOrder(u) && Disciplined(u, cfg)
  }

  lemma SameFeed(u: Subscriber, v: Subscriber, cfg: Config, history: seq<Record>)
    requires cfg.Normal() && FedInOrder(u, cfg, history)
    requires v.scope == u.scope && v.after == u.after && v.joined == u.joined && v.upTo == u.upTo
    requires v.replayed == u.replayed && v.fed == u.fed && (v.registered ==> u.registered)
    ensures FedInOrder(v, cfg, history)
  {
  }

  lemma ShiftLeft<T>(a: seq<T>, b: seq<T>)
    requires b != []
    ensures a + b == (a + [b[0]]) + b[1..]
  {
    assert b == [b[0]] + b[1..];
  }

  /** A turn of the pump or the consumer only moves records along. */
  lemma TurnMovesRecords(u: Subscriber, cfg: Config, turn: Turn)
    ensures var v := TakeTurn(u, cfg, turn); v.phase == Pumping ==> v.Pipeline() == u.Pipeline()
  {
    if turn == Take {
      if u.hand == None && u.replay != [] {
        ShiftLeft(u.consumed + u.outbox, u.replay);
        assert u.consumed + u.outbox + [] == u.consumed + u.outbox;
      } else if u.hand == None && u.inbox != [] {
        ShiftLeft(u.consumed + u.outbox, u.inbox);
        assert u.consumed + u.outbox + [] + [] == u.consumed + u.outbox;
      }
    } else if turn == Send {
      if u.hand.Some? {
        var sent := u.outbox + [u.hand.value];
        assert u.consumed + sent + [] == u.consumed + u.outbox + [u.hand.value];
      }
    } else if turn == Consume {
      if u.outbox != [] {
        ShiftLeft(u.consumed, u.outbox);
      }
    }
  }

  /** What the consumer has or can still read grows only by what the pump had in hand. */
  lemma TurnKeepsSent(u: Subscriber, cfg: Config, turn: Turn)
    ensures var v := TakeTurn(u, cfg, turn);
            v.consumed + v.outbox == u.consumed + u.outbox || (turn == Send && v.phase == Pumping)
  {
    if turn == Consume && u.outbox != [] {
      ShiftLeft(u.consumed, u.outbox);
    }
  }

  lemma SentIsFirst(u: Subscriber)
    ensures u.consumed + u.outbox <= u.Pipeline()
  {
  }

  lemma TurnKeepsFeed(u: Subscriber, cfg: Config, turn: Turn)
    ensures var v := TakeTurn(u, cfg, turn); v.fed == u.fed && (v.phase == Pumping ==> u.phase == Pumping)
  {
  }

  lemma TurnKeepsDelivery(u: Subscriber, cfg: Config, turn: Turn)
    requires DeliversInOrder(u)
    ensures DeliversInOrder(TakeTurn(u, cfg, turn))
  {
    hide TakeTurn;
    TurnKeepsFeed(u, cfg, turn);
    TurnMovesRecords(u, cfg, turn);
    TurnKeepsSent(u, cfg, turn);
    SentIsFirst(TakeTurn(u, cfg, turn));
  }

  lemma TurnKeepsDiscipline(u: Subscriber, cfg: Config, turn: Turn)
    requires Disciplined(u, cfg)
    ensures Disciplined(TakeTurn(u, cfg, turn), cfg)
  {
  }

  lemma TurnKeepsOrder(u: Subscriber, cfg: Config, turn: Turn, history: seq<Record>)
    requires cfg.Normal() && Orderly(u, cfg, history)
    ensures var v := TakeTurn(u, cfg, turn);
            Orderly(v, cfg, history) && (v.registered ==> u.registered) && v.after == u.after
  {
    hide FedInOrder, DeliversInOrder, Disciplined;
    SameFeed(u, TakeTurn(u, cfg, turn), cfg, history);
    TurnKeepsDelivery(u, cfg, turn);
    TurnKeepsDiscipline(u, cfg, turn);
  }

  lemma DeliveryKeepsDiscipline(u: Subscriber, cfg: Config, r: Record)
    requires Disciplined(u, cfg)
    ensures Disciplined(Deliver(u, cfg, r), cfg)
  {
    hide Matches;
  }

  lemma DeliveryKeepsOrder(u: Subscriber, cfg: Config, r: Record, history: seq<Record>)
    requires cfg.Normal() && Orderly(u, cfg, history)
    ensures Orderly(Deliver(u, cfg, r), cfg, history + [r]) && Deliver(u, cfg, r).after == u.after
  {
    hide FedInOrder, DeliversInOrder, Disciplined, Receives;
    DeliveryKeepsFeed(u, cfg, r, history);
    DeliveryExtends(u, cfg, r);
    DeliveryKeepsDiscipline(u, cfg, r);
  }

  lemma DeliveryExtends(u: Subscriber, cfg: Config, r: Record)
    requires DeliversInOrder(u)
    ensures DeliversInOrder(Deliver(u, cfg, r))
  {
    hide Matches;
    PipelineExtends(u, r);
  }

  lemma PipelineExtends(u: Subscriber, r: Record)
    ensures u.(inbox := u.inbox + [r], fed := u.fed + [r], upTo := u.upTo + 1).Pipeline() == u.Pipeline() + [r]
  {
    var sent := u.consumed + u.outbox + u.Hand() + u.replay;
    assert sent + (u.inbox + [r]) == sent + u.inbox + [r];
  }

  lemma DeliveryKeepsFeed(u: Subscriber, cfg: Config, r: Record, history: seq<Record>)
    requires cfg.Normal() && FedInOrder(u, cfg, history)
    ensures FedInOrder(Deliver(u, cfg, r), cfg, history + [r])
  {
    hide RetainedAt, ReplayAfter, Matches, Select;
    var grown, selection := history + [r], ByMatch(cfg.matcher, u.scope);
    assert grown[..u.joined] == history[..u.joined];
    assert grown[u.joined..u.upTo] == history[u.joined..u.upTo];
    if u.registered {
      assert grown[u.joined..u.upTo + 1] == history[u.joined..u.upTo] + [r];
      SelectOne(history[u.joined..u.upTo], selection, r);
      assert u.replayed + (Select(history[u.joined..u.upTo], selection) + [r]) == u.fed + [r];
      assert Select(history[u.joined..u.upTo], selection) + [] == Select(history[u.joined..u.upTo], selection);
    }
  }

  lemma NewSubscriberIsOrderly(w: Stream, cfg: Config, scope: Scope, after: string)
    requires cfg.Normal() && w.buckets == BucketsOf(w.history, cfg.bufferSize)
    requires ReplayAfter(RetainedRecords(w.history, w.buckets, cfg, scope), after).Replay?
    ensures Orderly(
      NewSubscriber(scope, after, |w.history|, ReplayAfter(RetainedRecords(w.history, w.buckets, cfg, scope), after).records),
      cfg, w.history)
  {
    hide BucketsOf, RetainedRecords, ReplayAfter;
    assert w.history[..|w.history|] == w.history;
  }

  // ---------------------------------------------------------------------
  // The invariant
  // ---------------------------------------------------------------------

  ghost predicate Valid(w: Stream, cfg: Config)
    requires cfg.Normal()
  {
    && w.nextCursor == |w.history| && Numbered(w.history)
    && w.buckets == BucketsOf(w.history, cfg.bufferSize)
    && StatsAgree(w)
    && (forall u :: u in w.subscribers ==> Orderly(u, cfg, w.history))
    && !w.panicked
  }

  lemma PublishKeepsStats(w: Stream, cfg: Config, scope: Scope, event: Event, now: int)
    requires cfg.Normal() && StatsAgree(w)
    requires |Bucket(w.buckets, scope)| <= cfg.bufferSize
    ensures StatsAgree(Publish(w, cfg, scope, event, now))
  {
    hide Receives, IsSlow, SumLengths;
    var r := NextRecord(w, scope, event, now);
    var v := Publish(w, cfg, scope, event, now);
    CountAfterDelivery(w.subscribers, cfg, r);
    ResumedStays(w.subscribers, v.subscribers);
    SumAfterUpdate(w.buckets, scope, v.buckets[scope]);
    assert v.buckets.Keys == w.buckets.Keys + {scope};
  }

  lemma RegisteredIsOpen(w: Stream, cfg: Config)
    requires cfg.Normal() && Valid(w, cfg)
    ensures forall u :: u in w.subscribers && u.registered ==> !u.closed
  {
    forall u | u in w.subscribers && u.registered
      ensures !u.closed
    {
      assert Orderly(u, cfg, w.history);
    }
  }

  lemma DeliveriesKeepOrder(subscribers: seq<Subscriber>, cfg: Config, r: Record, history: seq<Record>)
    requires cfg.Normal() && forall u :: u in subscribers ==> Orderly(u, cfg, history)
    ensures forall v :: v in DeliverAll(subscribers, cfg, r) ==> Orderly(v, cfg, history + [r])
  {
    hide Orderly, Deliver;
    var delivered := DeliverAll(subscribers, cfg, r);
    forall i | 0 <= i < |delivered|
      ensures Orderly(delivered[i], cfg, history + [r])
    {
      DeliveryKeepsOrder(subscribers[i], cfg, r, history);
    }
  }

  /** A publish sends on open channels only, because a registered subscriber is never closed. */
  lemma PublishDoesNotPanic(w: Stream, cfg: Config, r: Record)
    requires cfg.Normal() && Valid(w, cfg)
    ensures !exists u :: u in w.subscribers && u.closed && Receives(u, cfg, r)
  {
    hide Matches;
    RegisteredIsOpen(w, cfg);
  }

  lemma PublishKeepsValid(w: Stream, cfg: Config, scope: Scope, event: Event, now: int)
    requires cfg.Normal() && Valid(w, cfg)
    ensures Valid(Publish(w, cfg, scope, event, now), cfg)
  {
    hide BucketsOf, StatsAgree, Orderly, Receives, BucketWith, DeliverAll, CountSlow, CountRegistered;
    var r := NextRecord(w, scope, event, now);
    BucketsGrow(w.history, cfg.bufferSize, r);
    PublishKeepsStats(w, cfg, scope, event, now);
    PublishDoesNotPanic(w, cfg, r);
    DeliveriesKeepOrder(w.subscribers, cfg, r, w.history);
  }

  lemma SubscribeKeepsValid(w: Stream, cfg: Config, scope: Scope, after: string)
    requires cfg.Normal() && Valid(w, cfg)
    ensures Valid(Subscribe(w, cfg, scope, after), cfg)
  {
    hide BucketsOf, RetainedRecords, ReplayAfter, Orderly;
    if ReplayAfter(RetainedRecords(w.history, w.buckets, cfg, scope), after).Replay? {
      NewSubscriberIsOrderly(w, cfg, scope, after);
      var v := Subscribe(w, cfg, scope, after);
      assert v.subscribers[..|w.subscribers|] == w.subscribers;
    }
  }

  lemma TurnKeepsValid(w: Stream, cfg: Config, i: nat, turn: Turn)
    requires cfg.Normal() && Valid(w, cfg) && i < |w.subscribers|
    ensures Valid(TurnOf(w, cfg, i, turn), cfg)
  {
    hide BucketsOf, Orderly, TakeTurn;
    var v := TurnOf(w, cfg, i, turn);
    TurnKeepsOrder(w.subscribers[i], cfg, turn, w.history);
    ResumedStays(w.subscribers, v.subscribers);
    CountAfterUpdate(w.subscribers, i, v.subscribers[i]);
  }

  lemma ApplyKeepsValid(w: Stream, cfg: Config, action: Action)
    requires cfg.Normal() && Valid(w, cfg)
    ensures Valid(Apply(w, cfg, action), cfg)
  {
    match action
    case PublishEvent(scope, event, now) => PublishKeepsValid(w, cfg, scope, event, now);
    case SubscribeTo(scope, after) => SubscribeKeepsValid(w, cfg, scope, after);
    case SubscriberTurn(i, turn) =>
      if i < |w.subscribers| {
        TurnKeepsValid(w, cfg, i, turn);
      }
  }

  lemma {:induction false} RunsAreValid(cfg: Config, actions: seq<Action>)
    requires cfg.Normal()
    ensures Valid(Run(cfg, actions), cfg)
  {
    if actions != [] {
      RunsAreValid(cfg, actions[..|actions| - 1]);
      ApplyKeepsValid(Run(cfg, actions[..|actions| - 1]), cfg, actions[|actions| - 1]);
    }
  }
}

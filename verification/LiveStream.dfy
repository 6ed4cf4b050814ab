/** The stream object: the sections that run under its mutex, with the loops over the
    bucket and subscriber maps in whatever order the maps yield. Each section is proved
    to be the step of the same name. */
module LiveStream {
  import opened Wrappers
  import opened Scopes
  import opened Records
  import opened EventStream
  import opened StreamInvariants
  import opened StreamDelivery

  /** The side of a subscriber that only its pump and its consumer touch. */
  datatype PumpSide = PumpSide(
    cancelled: bool,
    phase: Phase,
    replay: seq<Record>,
    hand: Option<Record>,
    outbox: seq<Record>,
    outClosed: bool,
    consumed: seq<Record>)

  class Inlet {
    const scope: Scope
    const after: string
    var inbox: seq<Record>
    var closed: bool
    var pump: PumpSide
    ghost const joined: nat
    ghost const replayed: seq<Record>
    ghost var upTo: nat
    ghost var fed: seq<Record>

    ghost function View(registered: bool): (u: Subscriber)
      reads this
      ensures u.registered == registered
    {
      Subscriber(scope, after, registered, closed, pump.cancelled, pump.phase, pump.replay, inbox, pump.hand,
                 pump.outbox, pump.outClosed, pump.consumed, joined, upTo, replayed, fed)
    }

    constructor (scope: Scope, after: string, replay: seq<Record>, ghost published: nat)
      ensures View(true) == NewSubscriber(scope, after, published, replay)
    {
      this.scope, this.after := scope, after;
      inbox, closed := [], false;
      pump := PumpSide(false, Pumping, replay, None, [], false, []);
      joined, upTo, replayed, fed := published, published, replay, replay;
    }

    /** The select of Publish: a matching subscriber takes the record if it has room. */
    method Offer(r: Record, cfg: Config) returns (slow: bool)
      modifies this
      ensures slow == IsSlow(old(View(true)), cfg, r)
      ensures View(true) == if slow then old(View(true)) else Deliver(old(View(true)), cfg, r)
    {
      if !Matches(cfg.matcher, scope, r.scope) {
        upTo := upTo + 1;
        return false;
      }
      if |inbox| >= cfg.queueSize {
        return true;
      }
      inbox := inbox + [r];
      upTo, fed := upTo + 1, fed + [r];
      slow := false;
    }

    method Shut()
      modifies this`closed
      ensures View(false) == old(View(true)).(registered := false, closed := true)
    {
      closed := true;
    }

    method Leave()
      modifies this
      ensures View(false) == old(View(false)).(phase := Closing)
      ensures View(true) == old(View(true)).(phase := Closing)
    {
      pump := pump.(phase := Closing);
    }
  }

  // ---------------------------------------------------------------------
  // Counting members of a set along a sequence
  // ---------------------------------------------------------------------

  ghost predicate AllDifferent(inlets: seq<Inlet>) {
    forall i, j :: 0 <= i < j < |inlets| ==> inlets[i] != inlets[j]
  }

  ghost function CountIn(inlets: seq<Inlet>, members: set<Inlet>): nat {
    if inlets == [] then 0
    else
      var last := |inlets| - 1;
      CountIn(inlets[..last], members) + if inlets[last] in members then 1 else 0
  }

  lemma {:induction false} CountInIsSize(inlets: seq<Inlet>, members: set<Inlet>)
    requires AllDifferent(inlets) && forall m :: m in members ==> m in inlets
    ensures CountIn(inlets, members) == |members|
  {
    if inlets == [] {
      assert members == {};
    } else {
      var last := |inlets| - 1;
      var others := members - {inlets[last]};
      CountInIsSize(inlets[..last], others);
      SameCount(inlets[..last], members, others);
    }
  }

  lemma {:induction false} SameCount(inlets: seq<Inlet>, a: set<Inlet>, b: set<Inlet>)
    requires forall x :: x in inlets ==> (x in a <==> x in b)
    ensures CountIn(inlets, a) == CountIn(inlets, b)
  {
    if inlets != [] {
      var last := |inlets| - 1;
      assert inlets[last] in inlets;
      SameCount(inlets[..last], a, b);
    }
  }

  lemma {:induction false} RegisteredAreIn(inlets: seq<Inlet>, members: set<Inlet>, views: seq<Subscriber>)
    requires |views| == |inlets| && forall i :: 0 <= i < |views| ==> (views[i].registered <==> inlets[i] in members)
    ensures CountRegistered(views) == CountIn(inlets, members)
  {
    if inlets != [] {
      var last := |inlets| - 1;
      RegisteredAreIn(inlets[..last], members, views[..last]);
    }
  }

  lemma PresentAreCounted(inlets: seq<Inlet>, members: set<Inlet>, views: seq<Subscriber>)
    requires AllDifferent(inlets) && forall m :: m in members ==> m in inlets
    requires |views| == |inlets| && forall i :: 0 <= i < |views| ==> (views[i].registered <==> inlets[i] in members)
    ensures CountRegistered(views) == |members|
  {
    RegisteredAreIn(inlets, members, views);
    CountInIsSize(inlets, members);
  }

  lemma {:induction false} SlowAreIn(inlets: seq<Inlet>, slow: set<Inlet>, views: seq<Subscriber>, cfg: Config, r: Record)
    requires |views| == |inlets| && forall i :: 0 <= i < |views| ==> (IsSlow(views[i], cfg, r) <==> inlets[i] in slow)
    ensures CountSlow(views, cfg, r) == CountIn(inlets, slow)
  {
    hide IsSlow;
    if inlets != [] {
      var last := |inlets| - 1;
      SlowAreIn(inlets[..last], slow, views[..last], cfg, r);
    }
  }

  // ---------------------------------------------------------------------
  // Sorting by cursor
  // ---------------------------------------------------------------------

  /** One record into an ascending list, compared as the stream compares cursors. */
  method Insert(sorted: seq<Record>, r: Record) returns (inserted: seq<Record>)
    requires Ascending(sorted) && forall x :: x in sorted ==> x.cursor != r.cursor
    ensures Ascending(inserted) && forall x :: x in inserted <==> x in sorted || x == r
  {
    var i := 0;
    while i < |sorted| && CompareCursor(sorted[i].Cursor(), r.Cursor()) < 0
      invariant i <= |sorted|
      invariant forall k :: 0 <= k < i ==> sorted[k].cursor < r.cursor
    {
      CursorsCompareAsNumbers(sorted[i], r);
      i := i + 1;
    }
    if i < |sorted| {
      CursorsCompareAsNumbers(sorted[i], r);
      assert sorted[i] in sorted;
    }
    InsertAscends(sorted, i, r);
    inserted := sorted[..i] + [r] + sorted[i..];
  }

  lemma InsertAscends(sorted: seq<Record>, i: nat, r: Record)
    requires Ascending(sorted) && i <= |sorted|
    requires forall k :: 0 <= k < i ==> sorted[k].cursor < r.cursor
    requires i < |sorted| ==> r.cursor < sorted[i].cursor
    ensures var inserted := sorted[..i] + [r] + sorted[i..];
            Ascending(inserted) && forall x :: x in inserted <==> x in sorted || x == r
  {
    assert sorted == sorted[..i] + sorted[i..];
  }

  method SortByCursor(records: seq<Record>) returns (sorted: seq<Record>)
    requires forall i, j :: 0 <= i < j < |records| ==> records[i].cursor != records[j].cursor
    ensures Ascending(sorted) && forall x :: x in sorted <==> x in records
  {
    sorted := [];
    for k := 0 to |records|
      invariant Ascending(sorted) && forall x :: x in sorted <==> x in records[..k]
    {
      assert records[..k + 1] == records[..k] + [records[k]];
      sorted := Insert(sorted, records[k]);
    }
    assert records[..|records|] == records;
  }

  // ---------------------------------------------------------------------
  // The stream
  // ---------------------------------------------------------------------

  ghost function ViewsOf(inlets: seq<Inlet>, registered: set<Inlet>): (views: seq<Subscriber>)
    reads inlets
    ensures |views| == |inlets|
    ensures forall i :: 0 <= i < |views| ==> views[i] == inlets[i].View(inlets[i] in registered)
  {
    if inlets == [] then []
    else
      var last := |inlets| - 1;
      ViewsOf(inlets[..last], registered) + [inlets[last].View(inlets[last] in registered)]
  }

  class ScopedStream {
    const cfg: Config
    var nextCursor: nat
    var buckets: Buckets
    var subscribers: set<Inlet>
    var stats: Stats
    ghost var everyone: seq<Inlet>
    ghost var history: seq<Record>

    ghost function Views(): (views: seq<Subscriber>)
      reads this`subscribers, this`everyone, everyone
    {
      ViewsOf(everyone, subscribers)
    }

    ghost function View(): Stream
      reads this, everyone
    {
      Stream(nextCursor, buckets, Views(), stats, history, false)
    }

    ghost predicate Known()
      reads this`subscribers, this`everyone
    {
      AllDifferent(everyone) && forall x :: x in subscribers ==> x in everyone
    }

    ghost predicate Valid()
      reads this, everyone
    {
      Known() && cfg.Normal() && StreamInvariants.Valid(View(), cfg)
    }

    constructor (config: Config)
      ensures Valid() && View() == NEW_STREAM && cfg == config.Normalized()
    {
      hide StreamInvariants.Valid;
      cfg := config.Normalized();
      nextCursor, buckets, subscribers, stats := 0, map[], {}, Stats(0, 0, 0, 0, 0, 0, 0);
      everyone, history := [], [];
      new;
      assert AllDifferent(everyone);
      NewStreamIsValid(cfg);
      assert View() == NEW_STREAM;
    }

    /** Offers a record to every subscriber; the slow ones are returned. */
    method OfferAll(r: Record) returns (slow: set<Inlet>)
      requires Known()
      modifies subscribers
      ensures forall x :: x in slow ==> x in subscribers
      ensures forall i :: 0 <= i < |everyone| ==>
        (everyone[i] in slow <==> IsSlow(old(Views())[i], cfg, r))
        && Views()[i] == if everyone[i] in slow then old(Views())[i] else Deliver(old(Views())[i], cfg, r)
    {
      hide StreamInvariants.Valid, IsSlow, Deliver, ViewsOf, Inlet.View;
      slow := {};
      ghost var before := Views();
      var remaining := subscribers;
      while remaining != {}
        invariant forall x :: x in remaining ==> x in subscribers
        invariant forall x :: x in slow ==> x in subscribers && x !in remaining
        invariant forall i :: 0 <= i < |everyone| ==> Offered(before, i, slow, remaining, r)
        decreases |remaining|
      {
        var sub :| sub in remaining;
        slow := OfferOne(sub, r, slow, before, remaining);
        remaining := remaining - {sub};
      }
      forall i | 0 <= i < |everyone|
        ensures (everyone[i] in slow <==> IsSlow(before[i], cfg, r))
        ensures Views()[i] == if everyone[i] in slow then before[i] else Deliver(before[i], cfg, r)
      {
        assert Offered(before, i, slow, remaining, r);
        UnregisteredIsNotOffered(before[i], cfg, r);
      }
    }

    method OfferOne(sub: Inlet, r: Record, slow: set<Inlet>, ghost before: seq<Subscriber>, ghost remaining: set<Inlet>)
      returns (slower: set<Inlet>)
      requires Known() && sub in remaining && sub in subscribers && sub !in slow && |before| == |everyone|
      requires forall i :: 0 <= i < |everyone| ==> Offered(before, i, slow, remaining, r)
      modifies sub
      ensures slower == slow || slower == slow + {sub}
      ensures forall i :: 0 <= i < |everyone| ==> Offered(before, i, slower, remaining - {sub}, r)
    {
      hide IsSlow, Deliver, Inlet.View;
      var full := sub.Offer(r, cfg);
      slower := if full then slow + {sub} else slow;
      forall i | 0 <= i < |everyone|
        ensures Offered(before, i, slower, remaining - {sub}, r)
      {
        assert old(Offered(before, i, slow, remaining, r));
      }
    }

    /** How the offer stands for one subscriber while the others are still waiting. */
    ghost predicate Offered(before: seq<Subscriber>, i: nat, slow: set<Inlet>, remaining: set<Inlet>, r: Record)
      requires i < |everyone| && i < |before|
      reads this`subscribers, this`everyone, everyone
    {
      var x := everyone[i];
      && before[i].registered == (x in subscribers)
      && (if x in subscribers && x !in remaining
          then (x in slow <==> IsSlow(before[i], cfg, r))
               && x.View(true) == if x in slow then before[i] else Deliver(before[i], cfg, r)
          else x.View(x in subscribers) == before[i])
    }

    /** Removes the slow consumers one by one. */
    method RemoveSlow(slow: set<Inlet>)
      requires Known() && forall x :: x in slow ==> x in subscribers
      modifies this`subscribers, this`stats, slow
      ensures forall x :: x in subscribers <==> x in old(subscribers) && x !in slow
      ensures stats == old(stats).(slowConsumers := old(stats).slowConsumers + |slow|,
                                   active := if slow == {} then old(stats).active else |subscribers|)
      ensures forall i :: 0 <= i < |everyone| ==>
        Views()[i] == if everyone[i] in slow then old(Views())[i].(registered := false, closed := true) else old(Views())[i]
    {
      hide ViewsOf, Inlet.View;
      ghost var before := Views();
      var remaining := slow;
      ghost var removed := 0;
      while remaining != {}
        invariant forall x :: x in remaining ==> x in slow
        invariant forall x :: x in subscribers <==> x in old(subscribers) && (x !in slow || x in remaining)
        invariant removed + |remaining| == |slow|
        invariant stats == old(stats).(slowConsumers := old(stats).slowConsumers + removed,
                                       active := if removed == 0 then old(stats).active else |subscribers|)
        invariant forall i :: 0 <= i < |everyone| ==> Removed(before[i], everyone[i], slow, remaining)
        decreases |remaining|
      {
        hide Removed;
        var sub :| sub in remaining;
        RemoveSlowConsumer(sub, before, slow, remaining);
        remaining, removed := remaining - {sub}, removed + 1;
      }
    }

    /** removeSubscriberLocked with the reason slow_consumer. */
    method RemoveSlowConsumer(sub: Inlet, ghost before: seq<Subscriber>, ghost slow: set<Inlet>, ghost remaining: set<Inlet>)
      requires sub in subscribers && sub in remaining && sub in slow && |before| == |everyone|
      requires forall i :: 0 <= i < |everyone| ==> Removed(before[i], everyone[i], slow, remaining)
      modifies this`subscribers, this`stats, sub
      ensures subscribers == old(subscribers) - {sub}
      ensures stats == old(stats).(slowConsumers := old(stats).slowConsumers + 1, active := |subscribers|)
      ensures forall i :: 0 <= i < |everyone| ==> Removed(before[i], everyone[i], slow, remaining - {sub})
    {
      hide Inlet.View;
      subscribers := subscribers - {sub};
      sub.Shut();
      stats := stats.(slowConsumers := stats.slowConsumers + 1, active := |subscribers|);
      forall i | 0 <= i < |everyone|
        ensures Removed(before[i], everyone[i], slow, remaining - {sub})
      {
        assert old(Removed(before[i], everyone[i], slow, remaining));
      }
    }

    ghost predicate Removed(before: Subscriber, x: Inlet, slow: set<Inlet>, remaining: set<Inlet>)
      reads this`subscribers, x
    {
      x.View(x in subscribers) == if x in slow && x !in remaining then before.(registered := false, closed := true) else before
    }

    /** Offers the record to everyone, then removes whoever had no room for it. */
    method Fanout(r: Record)
      requires Known()
      modifies this`subscribers, this`stats, subscribers
      ensures Known() && Views() == DeliverAll(old(Views()), cfg, r)
      ensures var slow := CountSlow(old(Views()), cfg, r);
              stats == old(stats).(slowConsumers := old(stats).slowConsumers + slow,
                                   active := if slow == 0 then old(stats).active else CountRegistered(Views()))
    {
      hide ViewsOf, IsSlow, Deliver, CountSlow, CountRegistered, Inlet.View;
      ghost var before := Views();
      var slow := OfferAll(r);
      RemoveSlow(slow);
      ghost var views := Views();
      forall i | 0 <= i < |everyone|
        ensures views[i] == Deliver(before[i], cfg, r)
      {
        SlowIsRemoved(before[i], cfg, r);
      }
      SlowAreIn(everyone, slow, before, cfg, r);
      CountInIsSize(everyone, slow);
      PresentAreCounted(everyone, subscribers, views);
    }

    method Publish(scope: Scope, event: Event, now: int) returns (r: Record)
      requires Valid()
      modifies this, subscribers
      ensures Valid() && View() == EventStream.Publish(old(View()), cfg, scope, event, now)
      ensures r == NextRecord(old(View()), scope, event, now) && everyone == old(everyone)
      ensures r.cursor == old(nextCursor) + 1 && r.scope == scope && r.publishedAt == now
      ensures r.event.name == event.name && r.event.payload == event.payload && r.event.metadata == event.metadata
      ensures event.timestamp != 0 ==> r.event.timestamp == event.timestamp
      ensures event.timestamp == 0 ==> r.event.timestamp == r.publishedAt
      ensures history == old(history) + [r]
    {
      hide StreamInvariants.Valid, ViewsOf, DeliverAll, CountSlow, CountRegistered, BucketWith, Bucket, EventStream.Publish;
      PublishOnValid(View(), cfg, scope, event, now);
      nextCursor := nextCursor + 1;
      r := Record(nextCursor, scope, if event.timestamp == 0 then event.(timestamp := now) else event, now);
      StoreRecord(r);
      assert Views() == old(Views());
      Fanout(r);
      history := history + [r];
      assert Views() == DeliverAll(old(Views()), cfg, r);
      assert buckets == old(View()).buckets[scope := BucketWith(Bucket(old(View()).buckets, scope), cfg.bufferSize, r)];
      assert r == NextRecord(old(View()), scope, event, now);
      assert View().stats == EventStream.Publish(old(View()), cfg, scope, event, now).stats;
      assert View() == EventStream.Publish(old(View()), cfg, scope, event, now);
    }

    /** The bucket of the record's scope takes it in and gives up its oldest if it is full. */
    method StoreRecord(r: Record)
      requires cfg.Normal()
      modifies this`buckets, this`stats
      ensures var kept := Bucket(old(buckets), r.scope);
        && buckets == old(buckets)[r.scope := BucketWith(kept, cfg.bufferSize, r)]
        && stats == old(stats).(published := old(stats).published + 1,
                                buffered := old(stats).buffered + if |kept| == cfg.bufferSize then 0 else 1)
    {
      if r.scope !in buckets {
        buckets := buckets[r.scope := []];
      }
      var records := buckets[r.scope];
      if |records| == cfg.bufferSize {
        records := records[1..];
        stats := stats.(buffered := stats.buffered - 1);
      }
      buckets := buckets[r.scope := records + [r]];
      stats := stats.(buffered := stats.buffered + 1, published := stats.published + 1);
    }

    /** The records of the matching buckets, bucket by bucket. */
    method CollectMatching(scope: Scope) returns (matched: seq<Record>)
      requires Valid()
      ensures DistinctCursors(matched)
      ensures forall r :: r in matched <==> r in RetainedRecords(history, buckets, cfg, scope)
    {
      hide StreamInvariants.Valid, Matches, Select;
      BucketsHoldHistory(View(), cfg);
      matched := [];
      var remaining := buckets.Keys;
      while remaining != {}
        invariant remaining <= buckets.Keys && DistinctCursors(matched)
        invariant forall r :: r in matched <==> Collected(r, scope, remaining)
        decreases |remaining|
      {
        var s :| s in remaining;
        remaining := remaining - {s};
        if Matches(cfg.matcher, scope, s) {
          AppendBucket(matched, buckets[s], history, s);
          matched := matched + buckets[s];
        }
      }
      forall r: Record
        ensures Collected(r, scope, {}) <==> r in RetainedRecords(history, buckets, cfg, scope)
      {
        SelectMembers(history, Retained(cfg.matcher, scope, buckets), r);
      }
    }

    predicate Collected(r: Record, scope: Scope, remaining: set<Scope>)
      reads this`buckets
    {
      r.scope in buckets && r.scope !in remaining && Matches(cfg.matcher, scope, r.scope) && r in buckets[r.scope]
    }

    /** replayLocked */
    method ReplayLocked(scope: Scope, after: string) returns (replay: Replay)
      requires Valid()
      ensures replay == ReplayAfter(RetainedRecords(history, buckets, cfg, scope), after)
    {
      if after == "" {
        return Replay([]);
      }
      hide StreamInvariants.Valid, RetainedRecords, FindCursor;
      var matched := CollectMatching(scope);
      var sorted := SortByCursor(matched);
      RetainedAscends(View(), cfg, scope);
      AscendingIsUnique(sorted, RetainedRecords(history, buckets, cfg, scope));
      var found := FindRecord(sorted, after);
      if sorted == [] {
        return Replay([]);
      }
      match found
      case Some(i) => return Replay(sorted[i + 1..]);
      case None => return Gap;
    }

    /** Subscribe; a gap gives no subscriber. */
    method Subscribe(scope: Scope, after: string) returns (sub: Inlet?)
      requires Valid()
      modifies this
      ensures Valid() && View() == EventStream.Subscribe(old(View()), cfg, scope, after)
      ensures sub == null ==> everyone == old(everyone)
      ensures sub != null ==> fresh(sub) && everyone == old(everyone) + [sub]
    {
      hide StreamInvariants.Valid, RetainedRecords, ReplayAfter, CountRegistered, ViewsOf;
      SubscribeKeepsValid(View(), cfg, scope, after);
      var replay := ReplayLocked(scope, after);
      if replay.Gap? {
        stats := stats.(cursorsNotFound := stats.cursorsNotFound + 1);
        return null;
      }
      sub := Register(scope, after, replay.records);
      if after != "" {
        stats := stats.(resumed := stats.resumed + 1);
      }
    }

    method Register(scope: Scope, after: string, replay: seq<Record>) returns (sub: Inlet)
      requires Known()
      modifies this`subscribers, this`everyone, this`stats
      ensures Known() && fresh(sub) && everyone == old(everyone) + [sub]
      ensures Views() == old(Views()) + [NewSubscriber(scope, after, |history|, replay)]
      ensures stats == old(stats).(active := CountRegistered(Views()))
    {
      hide CountRegistered, ViewsOf, Inlet.View;
      sub := new Inlet(scope, after, replay, |history|);
      ghost var before := Views();
      subscribers := subscribers + {sub};
      everyone := everyone + [sub];
      stats := stats.(active := |subscribers|);
      assert AllDifferent(everyone);
      hide AllDifferent;
      assert Views() == before + [sub.View(true)];
      PresentAreCounted(everyone, subscribers, Views());
    }

    /** The deferred removeSubscriber of a pump that leaves. */
    method Unsubscribe(sub: Inlet, ghost i: nat)
      requires Valid() && i < |everyone| && everyone[i] == sub && Views()[i].phase == Leaving
      modifies this`subscribers, this`stats, sub
      ensures Valid() && View() == TurnOf(old(View()), cfg, i, Unregister)
    {
      hide StreamInvariants.Valid, ViewsOf, CountRegistered, Inlet.View;
      TurnKeepsValid(View(), cfg, i, Unregister);
      if sub in subscribers {
        Disconnect(sub, i);
      }
      Finish(sub, i);
      assert Views() == old(Views())[i := TakeTurn(old(Views())[i], cfg, Unregister)];
    }

    method Finish(sub: Inlet, ghost i: nat)
      requires Known() && i < |everyone| && everyone[i] == sub
      modifies sub
      ensures Views() == old(Views())[i := old(Views())[i].(phase := Closing)]
      ensures CountRegistered(Views()) == CountRegistered(old(Views()))
    {
      hide ViewsOf, CountRegistered, Inlet.View;
      ghost var before := Views();
      sub.Leave();
      assert Views() == before[i := before[i].(phase := Closing)];
      SamePresence(before, i, before[i].(phase := Closing));
    }

    /** removeSubscriberLocked with the reason client_disconnect. */
    method Disconnect(sub: Inlet, ghost i: nat)
      requires Known() && i < |everyone| && everyone[i] == sub && sub in subscribers
      modifies this`subscribers, this`stats, sub
      ensures Known() && sub !in subscribers && sub.pump == old(sub.pump)
      ensures Views() == old(Views())[i := old(Views())[i].(registered := false, closed := true)]
      ensures stats == old(stats).(active := CountRegistered(Views()), disconnects := old(stats).disconnects + 1)
    {
      hide ViewsOf, CountRegistered, Inlet.View;
      subscribers := subscribers - {sub};
      sub.Shut();
      stats := stats.(active := |subscribers|, disconnects := stats.disconnects + 1);
      PresentAreCounted(everyone, subscribers, Views());
    }
  }

  lemma SamePresence(views: seq<Subscriber>, i: nat, u: Subscriber)
    requires i < |views| && u.registered == views[i].registered
    ensures CountRegistered(views[i := u]) == CountRegistered(views)
  {
    CountAfterUpdate(views, i, u);
  }

  // ---------------------------------------------------------------------
  // Buckets and replays
  // ---------------------------------------------------------------------

  ghost predicate DistinctCursors(records: seq<Record>) {
    forall i, j :: 0 <= i < j < |records| ==> records[i].cursor != records[j].cursor
  }

  /** Every bucket holds records of the history, of its own scope. */
  lemma BucketsHoldHistory(w: Stream, cfg: Config)
    requires cfg.Normal() && StreamInvariants.Valid(w, cfg)
    ensures Numbered(w.history)
    ensures forall s :: s in w.buckets ==> HeldFor(s, w.buckets[s], w.history)
  {
    hide StatsAgree, Orderly;
    NumberedAscends(w.history);
    forall s | s in w.buckets
      ensures HeldFor(s, w.buckets[s], w.history)
    {
      BucketIsHeld(w.history, cfg.bufferSize, s);
    }
  }

  ghost predicate HeldFor(s: Scope, bucket: seq<Record>, history: seq<Record>) {
    Ascending(bucket) && forall r :: r in bucket ==> r in history && r.scope == s
  }

  lemma BucketIsHeld(history: seq<Record>, bufferSize: nat, s: Scope)
    requires Ascending(history) && s in BucketsOf(history, bufferSize)
    ensures HeldFor(s, BucketsOf(history, bufferSize)[s], history)
  {
    var all := Select(history, ByScope(s));
    SelectAscends(history, ByScope(s));
    forall r | r in LastN(all, bufferSize)
      ensures r in history && r.scope == s
    {
      SelectMembers(history, ByScope(s), r);
    }
  }

  lemma AppendBucket(matched: seq<Record>, bucket: seq<Record>, history: seq<Record>, s: Scope)
    requires Numbered(history) && HeldFor(s, bucket, history) && DistinctCursors(matched)
    requires forall r :: r in matched ==> r in history && r.scope != s
    ensures DistinctCursors(matched + bucket)
  {
    forall i, j | 0 <= i < |matched| && 0 <= j < |bucket|
      ensures matched[i].cursor != bucket[j].cursor
    {
      assert matched[i] in matched && bucket[j] in bucket;
    }
  }

  lemma RetainedAscends(w: Stream, cfg: Config, scope: Scope)
    requires cfg.Normal() && StreamInvariants.Valid(w, cfg)
    ensures Ascending(RetainedRecords(w.history, w.buckets, cfg, scope))
  {
    NumberedAscends(w.history);
    SelectAscends(w.history, Retained(cfg.matcher, scope, w.buckets));
  }

  function Shifted(found: Option<nat>, offset: nat): Option<nat> {
    match found
    case Some(k) => Some(k + offset)
    case None => None
  }

  method FindRecord(records: seq<Record>, cursor: string) returns (found: Option<nat>)
    ensures found == FindCursor(records, cursor)
  {
    for i := 0 to |records|
      invariant FindCursor(records, cursor) == Shifted(FindCursor(records[i..], cursor), i)
    {
      assert records[i..][1..] == records[i + 1..];
      if records[i].Cursor() == cursor {
        return Some(i);
      }
    }
    found := None;
  }

  lemma NewStreamIsValid(cfg: Config)
    requires cfg.Normal()
    ensures StreamInvariants.Valid(NEW_STREAM, cfg)
  {
    hide StreamInvariants.Valid;
    RunsAreValid(cfg, []);
    assert Run(cfg, []) == NEW_STREAM;
  }

  /** The step in one expression, given that nothing panics. */
  lemma PublishOnValid(w: Stream, cfg: Config, scope: Scope, event: Event, now: int)
    requires cfg.Normal() && StreamInvariants.Valid(w, cfg)
    ensures StreamInvariants.Valid(EventStream.Publish(w, cfg, scope, event, now), cfg)
    ensures var r, kept := NextRecord(w, scope, event, now), Bucket(w.buckets, scope);
            var slow, delivered := CountSlow(w.subscribers, cfg, r), DeliverAll(w.subscribers, cfg, r);
            var stats := w.stats.(published := w.stats.published + 1,
                                  buffered := w.stats.buffered + if |kept| == cfg.bufferSize then 0 else 1);
            EventStream.Publish(w, cfg, scope, event, now) ==
              Stream(r.cursor, w.buckets[scope := BucketWith(kept, cfg.bufferSize, r)], delivered,
                     stats.(slowConsumers := stats.slowConsumers + slow,
                            active := if slow == 0 then stats.active else CountRegistered(delivered)),
                     w.history + [r], false)
  {
    hide StreamInvariants.Valid, CountSlow, CountRegistered, DeliverAll, BucketWith, Bucket, Receives;
    PublishKeepsValid(w, cfg, scope, event, now);
    PublishDoesNotPanic(w, cfg, NextRecord(w, scope, event, now));
    StreamDoesNotPanic(w, cfg);
  }

  lemma StreamDoesNotPanic(w: Stream, cfg: Config)
    requires cfg.Normal() && StreamInvariants.Valid(w, cfg)
    ensures !w.panicked
  {
  }

  lemma SlowIsRemoved(u: Subscriber, cfg: Config, r: Record)
    ensures IsSlow(u, cfg, r) ==> Deliver(u, cfg, r) == u.(registered := false, closed := true)
  {
  }

  lemma UnregisteredIsNotOffered(u: Subscriber, cfg: Config, r: Record)
    ensures !u.registered ==> !IsSlow(u, cfg, r) && Deliver(u, cfg, r) == u
  {
  }
}

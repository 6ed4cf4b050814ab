/** The replayable event stream as a step system. Every section of the stream that runs
    under its mutex is one step, and so is every channel operation of a pump. */
module EventStream {
  import opened Wrappers
  import opened Scopes
  import opened Records

  const DEFAULT_BUFFER_SIZE := 256
  const DEFAULT_QUEUE_SIZE := 32

  datatype Config = Config(bufferSize: int, queueSize: int, matcher: Matcher)
  {
    function Normalized(): (cfg: Config)
      ensures cfg.Normal()
      ensures bufferSize > 0 ==> cfg.bufferSize == bufferSize
      ensures bufferSize <= 0 ==> cfg.bufferSize == 256
      ensures queueSize > 0 ==> cfg.queueSize == queueSize
      ensures queueSize <= 0 ==> cfg.queueSize == 32
      ensures !matcher.Unset? ==> cfg.matcher == matcher
      ensures matcher.Unset? ==> cfg.matcher == Exact
    {
      Config(if bufferSize <= 0 then DEFAULT_BUFFER_SIZE else bufferSize,
             if queueSize <= 0 then DEFAULT_QUEUE_SIZE else queueSize,
             if matcher == Unset then Exact else matcher)
    }

    predicate Normal() {
      bufferSize > 0 && queueSize > 0 && matcher != Unset
    }
  }

  /** How far the pump goroutine of a subscriber has come. */
  datatype Phase = Pumping | Leaving | Closing | Stopped

  /** A subscriber. Its done and in channels are closed together, which closed records.
      The fields from joined on are history: what the stream had published when the
      subscriber joined and when it last offered it a record, and what it was fed. */
  datatype Subscriber = Subscriber(
    scope: Scope,
    after: string,
    registered: bool,
    closed: bool,
    cancelled: bool,
    phase: Phase,
    replay: seq<Record>,
    inbox: seq<Record>,
    hand: Option<Record>,
    outbox: seq<Record>,
    outClosed: bool,
    consumed: seq<Record>,
    joined: nat,
    upTo: nat,
    replayed: seq<Record>,
    fed: seq<Record>)
  {
    function Hand(): seq<Record> {
      if hand.Some? then [hand.value] else []
    }

    /** Every record the pump was given and still accounts for, the oldest first. */
    function Pipeline(): seq<Record> {
      consumed + outbox + Hand() + replay + inbox
    }
  }

  datatype Stats = Stats(
    published: nat,
    resumed: nat,
    active: nat,
    buffered: int,
    slowConsumers: nat,
    disconnects: nat,
    cursorsNotFound: nat)

  datatype Stream = Stream(
    nextCursor: nat,
    buckets: Buckets,
    subscribers: seq<Subscriber>,
    stats: Stats,
    history: seq<Record>,
    panicked: bool)

  const NEW_STREAM := Stream(0, map[], [], Stats(0, 0, 0, 0, 0, 0, 0), [], false)

  // ---------------------------------------------------------------------
  // Publish
  // ---------------------------------------------------------------------

  function Stamped(event: Event, now: int): Event {
    if event.timestamp == 0 then event.(timestamp := now) else event
  }

  predicate Receives(u: Subscriber, cfg: Config, r: Record) {
    u.registered && Matches(cfg.matcher, u.scope, r.scope)
  }

  /** The inbox has no room for the record. */
  predicate IsSlow(u: Subscriber, cfg: Config, r: Record) {
    Receives(u, cfg, r) && |u.inbox| >= cfg.queueSize
  }

  function Deliver(u: Subscriber, cfg: Config, r: Record): Subscriber {
    if !u.registered then u
    else if !Receives(u, cfg, r) then u.(upTo := u.upTo + 1)
    else if IsSlow(u, cfg, r) then u.(registered := false, closed := true)
    else u.(inbox := u.inbox + [r], fed := u.fed + [r], upTo := u.upTo + 1)
  }

  function DeliverAll(subscribers: seq<Subscriber>, cfg: Config, r: Record): (delivered: seq<Subscriber>)
    ensures |delivered| == |subscribers|
    ensures forall i :: 0 <= i < |subscribers| ==> delivered[i] == Deliver(subscribers[i], cfg, r)
  {
    seq(|subscribers|, i requires 0 <= i < |subscribers| => Deliver(subscribers[i], cfg, r))
  }

  function CountSlow(subscribers: seq<Subscriber>, cfg: Config, r: Record): nat {
    if subscribers == [] then 0
    else
      var last := |subscribers| - 1;
      CountSlow(subscribers[..last], cfg, r) + if IsSlow(subscribers[last], cfg, r) then 1 else 0
  }

  function CountRegistered(subscribers: seq<Subscriber>): nat {
    if subscribers == [] then 0
    else
      var last := |subscribers| - 1;
      CountRegistered(subscribers[..last]) + if subscribers[last].registered then 1 else 0
  }

  function NextRecord(w: Stream, scope: Scope, event: Event, now: int): Record {
    Record(w.nextCursor + 1, scope, Stamped(event, now), now)
  }

  function Bucket(buckets: Buckets, scope: Scope): seq<Record> {
    if scope in buckets then buckets[scope] else []
  }

  /** A full bucket gives up its oldest record. */
  function BucketWith(kept: seq<Record>, bufferSize: nat, r: Record): seq<Record>
    requires bufferSize > 0
  {
    (if |kept| == bufferSize then kept[1..] else kept) + [r]
  }

  function Publish(w: Stream, cfg: Config, scope: Scope, event: Event, now: int): Stream
    requires cfg.Normal()
  {
    var r := NextRecord(w, scope, event, now);
    var kept := Bucket(w.buckets, scope);
    var full := |kept| == cfg.bufferSize;
    var slow := CountSlow(w.subscribers, cfg, r);
    var delivered := DeliverAll(w.subscribers, cfg, r);
    Stream(
      r.cursor,
      w.buckets[scope := BucketWith(kept, cfg.bufferSize, r)],
      delivered,
      w.stats.(
        published := w.stats.published + 1,
        buffered := w.stats.buffered + (if full then 0 else 1),
        active := if slow == 0 then w.stats.active else CountRegistered(delivered),
        slowConsumers := w.stats.slowConsumers + slow),
      w.history + [r],
      w.panicked || exists u :: u in w.subscribers && u.closed && Receives(u, cfg, r))
  }

  // ---------------------------------------------------------------------
  // Subscribe
  // ---------------------------------------------------------------------

  datatype Replay = Gap | Replay(records: seq<Record>)

  function FindCursor(records: seq<Record>, cursor: string): (found: Option<nat>)
    ensures found.Some? ==> found.value < |records| && records[found.value].Cursor() == cursor
    ensures found.None? ==> forall r :: r in records ==> r.Cursor() != cursor
  {
    if records == [] then None
    else if records[0].Cursor() == cursor then Some(0)
    else
      match FindCursor(records[1..], cursor)
      case Some(i) => Some(i + 1)
      case None => None
  }

  /** replayLocked, once the retained matching records are in cursor order. */
  function ReplayAfter(retained: seq<Record>, after: string): Replay {
    if after == "" || retained == [] then Replay([])
    else
      match FindCursor(retained, after)
      case Some(i) => Replay(retained[i + 1..])
      case None => Gap
  }

  /** The records that matching buckets still hold, in cursor order. */
  function RetainedRecords(history: seq<Record>, buckets: Buckets, cfg: Config, scope: Scope): seq<Record> {
    Select(history, Retained(cfg.matcher, scope, buckets))
  }

  function NewSubscriber(scope: Scope, after: string, joined: nat, replay: seq<Record>): Subscriber {
    Subscriber(scope, after, true, false, false, Pumping, replay, [], None, [], false, [], joined, joined, replay, replay)
  }

  function Subscribe(w: Stream, cfg: Config, scope: Scope, after: string): Stream {
    match ReplayAfter(RetainedRecords(w.history, w.buckets, cfg, scope), after)
    case Gap => w.(stats := w.stats.(cursorsNotFound := w.stats.cursorsNotFound + 1))
    case Replay(records) =>
      var subscribers := w.subscribers + [NewSubscriber(scope, after, |w.history|, records)];
      w.(subscribers := subscribers,
         stats := w.stats.(active := CountRegistered(subscribers),
                           resumed := w.stats.resumed + if after == "" then 0 else 1))
  }

  // ---------------------------------------------------------------------
  // The pump of a subscriber, its consumer and its context
  // ---------------------------------------------------------------------

  datatype Turn = Take | Send | Quit | Unregister | Close | Consume | Cancel

  predicate Told(u: Subscriber) {
    u.cancelled || u.closed
  }

  /** A turn that is not enabled changes nothing. */
  function TakeTurn(u: Subscriber, cfg: Config, turn: Turn): Subscriber {
    match turn
    case Take =>
      if u.phase != Pumping || u.hand.Some? then u
      else if u.replay != [] then u.(hand := Some(u.replay[0]), replay := u.replay[1..])
      else if u.inbox != [] then u.(hand := Some(u.inbox[0]), inbox := u.inbox[1..])
      else if u.closed then u.(phase := Leaving)
      else u
    case Send =>
      if u.phase == Pumping && u.hand.Some? && |u.outbox| < cfg.queueSize
      then u.(outbox := u.outbox + [u.hand.value], hand := None)
      else u
    case Quit =>
      if u.phase == Pumping && Told(u) && (u.hand.Some? || u.replay == [])
      then u.(phase := Leaving, hand := None)
      else u
    case Unregister =>
      if u.phase != Leaving then u
      else if u.registered then u.(phase := Closing, registered := false, closed := true)
      else u.(phase := Closing)
    case Close => if u.phase == Closing then u.(phase := Stopped, outClosed := true) else u
    case Consume => if u.outbox != [] then u.(outbox := u.outbox[1..], consumed := u.consumed + [u.outbox[0]]) else u
    case Cancel => u.(cancelled := true)
  }

  /** The deferred removeSubscriber counts only if nothing else removed it before. */
  function TurnOf(w: Stream, cfg: Config, i: nat, turn: Turn): Stream
    requires i < |w.subscribers|
  {
    var subscribers := w.subscribers[i := TakeTurn(w.subscribers[i], cfg, turn)];
    if w.subscribers[i].registered && !subscribers[i].registered
    then w.(subscribers := subscribers,
            stats := w.stats.(active := CountRegistered(subscribers), disconnects := w.stats.disconnects + 1))
    else w.(subscribers := subscribers)
  }

  datatype Action =
    | PublishEvent(scope: Scope, event: Event, now: int)
    | SubscribeTo(scope: Scope, after: string)
    | SubscriberTurn(subscriber: nat, turn: Turn)

  function Apply(w: Stream, cfg: Config, action: Action): Stream
    requires cfg.Normal()
  {
    match action
    case PublishEvent(scope, event, now) => Publish(w, cfg, scope, event, now)
    case SubscribeTo(scope, after) => Subscribe(w, cfg, scope, after)
    case SubscriberTurn(i, turn) => if i < |w.subscribers| then TurnOf(w, cfg, i, turn) else w
  }

  function Run(cfg: Config, actions: seq<Action>): Stream
    requires cfg.Normal()
  {
    if actions == [] then NEW_STREAM
    else Apply(Run(cfg, actions[..|actions| - 1]), cfg, actions[|actions| - 1])
  }
}

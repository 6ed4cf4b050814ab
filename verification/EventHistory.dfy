/** The bounded WebSocket event history and its three indexes. */
module EventHistory {
  import opened Wrappers

  /** An event; address stands for the identity of the pointer the history holds. The
      client is the clientID of the metadata, or empty. */
  datatype EventMessage = EventMessage(address: nat, kind: string, namespace: string, client: string, timestamp: int)

  /** What an index is asked for. Empty names are never indexed. */
  datatype Key = ByKind(name: string) | ByNamespace(name: string) | ByClient(name: string)

  predicate HasKey(e: EventMessage, key: Key) {
    key.name != "" && match key
                      case ByKind(name) => e.kind == name
                      case ByNamespace(name) => e.namespace == name
                      case ByClient(name) => e.client == name
  }

  type Index = map<string, seq<EventMessage>>

  function At(index: Index, name: string): seq<EventMessage> {
    if name in index then index[name] else []
  }

  datatype History = History(events: seq<EventMessage>, byKind: Index, byNamespace: Index, byClient: Index)
  {
    function Lookup(key: Key): seq<EventMessage> {
      match key
      case ByKind(name) => At(byKind, name)
      case ByNamespace(name) => At(byNamespace, name)
      case ByClient(name) => At(byClient, name)
    }
  }

  const EMPTY_HISTORY := History([], map[], map[], map[])

  // ---------------------------------------------------------------------
  // Operations
  // ---------------------------------------------------------------------

  function Insert(index: Index, name: string, e: EventMessage): Index {
    if name == "" then index else index[name := At(index, name) + [e]]
  }

  /** removeFromSlice: the first occurrence goes. */
  function RemoveOne(events: seq<EventMessage>, e: EventMessage): seq<EventMessage> {
    if events == [] then []
    else if events[0] == e then events[1..]
    else [events[0]] + RemoveOne(events[1..], e)
  }

  function Delete(index: Index, name: string, e: EventMessage): Index {
    if name == "" then index else index[name := RemoveOne(At(index, name), e)]
  }

  function AddToIndex(h: History, e: EventMessage): History {
    h.(byKind := Insert(h.byKind, e.kind, e),
       byNamespace := Insert(h.byNamespace, e.namespace, e),
       byClient := Insert(h.byClient, e.client, e))
  }

  function RemoveFromIndex(h: History, e: EventMessage): History {
    h.(byKind := Delete(h.byKind, e.kind, e),
       byNamespace := Delete(h.byNamespace, e.namespace, e),
       byClient := Delete(h.byClient, e.client, e))
  }

  /** Add; with room for no event at all, taking the oldest of none panics. */
  function Add(h: History, maxSize: int, e: EventMessage): Option<History> {
    if |h.events| < maxSize then Some(AddToIndex(h.(events := h.events + [e]), e))
    else if h.events == [] then None
    else Some(AddToIndex(RemoveFromIndex(h.(events := h.events[1..] + [e]), h.events[0]), e))
  }

  function RemoveAllFromIndex(h: History, events: seq<EventMessage>): History
    decreases |events|
  {
    if events == [] then h else RemoveAllFromIndex(RemoveFromIndex(h, events[0]), events[1..])
  }

  /** How many events at the front are expired. */
  function ExpiredPrefix(events: seq<EventMessage>, cutoff: int): (n: nat)
    ensures n <= |events|
    ensures forall i :: 0 <= i < n ==> events[i].timestamp <= cutoff
    ensures n < |events| ==> events[n].timestamp > cutoff
  {
    if events == [] || events[0].timestamp > cutoff then 0 else 1 + ExpiredPrefix(events[1..], cutoff)
  }

  /** cleanupOldEvents at a given time: when every event is expired, firstValid is left at
      zero, so the indexes lose all of them and the list of events none. */
  function Cleanup(h: History, ttl: int, now: int): History {
    if ttl == 0 then h
    else
      var n := ExpiredPrefix(h.events, now - ttl);
      RemoveAllFromIndex(h, h.events[..n]).(events := if n < |h.events| then h.events[n..] else h.events)
  }

  // ---------------------------------------------------------------------
  // Agreement of the indexes with the events
  // ---------------------------------------------------------------------

  /** The events with a key, in order. */
  function Having(events: seq<EventMessage>, key: Key): seq<EventMessage> {
    if events == [] then []
    else (if HasKey(events[0], key) then [events[0]] else []) + Having(events[1..], key)
  }

  ghost predicate Indexes(h: History, events: seq<EventMessage>) {
    forall key: Key :: key.name != "" ==> h.Lookup(key) == Having(events, key)
  }

  ghost predicate Agrees(h: History) {
    Indexes(h, h.events)
  }

  lemma {:induction false} HavingAppend(events: seq<EventMessage>, e: EventMessage, key: Key)
    ensures Having(events + [e], key) == Having(events, key) + if HasKey(e, key) then [e] else []
  {
    if events == [] {
      assert [e][1..] == [];
    } else {
      HavingAppend(events[1..], e, key);
      assert (events + [e])[1..] == events[1..] + [e];
    }
  }

  lemma AddedLookup(h: History, e: EventMessage, key: Key)
    requires key.name != ""
    ensures AddToIndex(h, e).Lookup(key) == h.Lookup(key) + if HasKey(e, key) then [e] else []
  {
  }

  lemma RemovedLookup(h: History, e: EventMessage, key: Key)
    requires key.name != ""
    ensures RemoveFromIndex(h, e).Lookup(key) == if HasKey(e, key) then RemoveOne(h.Lookup(key), e) else h.Lookup(key)
  {
  }

  lemma AddKeepsIndexes(h: History, events: seq<EventMessage>, e: EventMessage)
    requires Indexes(h, events)
    ensures Indexes(AddToIndex(h, e), events + [e])
  {
    forall key: Key | key.name != ""
      ensures AddToIndex(h, e).Lookup(key) == Having(events + [e], key)
    {
      AddedLookup(h, e, key);
      HavingAppend(events, e, key);
    }
  }

  /** The oldest event comes first in every index that holds it, so removing its first
      occurrence removes the right one even if the same pointer was added twice. */
  lemma RemoveKeepsIndexes(h: History, events: seq<EventMessage>)
    requires events != [] && Indexes(h, events)
    ensures Indexes(RemoveFromIndex(h, events[0]), events[1..])
  {
    forall key: Key | key.name != ""
      ensures RemoveFromIndex(h, events[0]).Lookup(key) == Having(events[1..], key)
    {
      RemovedLookup(h, events[0], key);
    }
  }

  lemma AddKeepsAgreement(h: History, maxSize: int, e: EventMessage)
    requires Agrees(h) && Add(h, maxSize, e).Some?
    ensures Agrees(Add(h, maxSize, e).value)
  {
    if |h.events| < maxSize {
      AddKeepsIndexes(h, h.events, e);
    } else {
      RemoveKeepsIndexes(h, h.events);
      AddKeepsIndexes(RemoveFromIndex(h, h.events[0]), h.events[1..], e);
    }
  }

  lemma {:induction false} RemoveAllKeepsIndexes(h: History, events: seq<EventMessage>, n: nat)
    requires n <= |events| && Indexes(h, events)
    ensures Indexes(RemoveAllFromIndex(h, events[..n]), events[n..])
    ensures RemoveAllFromIndex(h, events[..n]).events == h.events
    decreases n
  {
    if n == 0 {
      assert events[n..] == events;
    } else {
      RemoveKeepsIndexes(h, events);
      RemoveAllKeepsIndexes(RemoveFromIndex(h, events[0]), events[1..], n - 1);
      assert events[..n][1..] == events[1..][..n - 1] && events[..n][0] == events[0];
      assert events[1..][n - 1..] == events[n..];
    }
  }

  ghost predicate IsIndexed(e: EventMessage) {
    e.kind != "" || e.namespace != "" || e.client != ""
  }

  ghost predicate SomeEventIsValid(h: History, cutoff: int) {
    exists e :: e in h.events && e.timestamp > cutoff
  }

  /** A cleanup keeps the agreement exactly when it leaves an unexpired event, or has
      nothing to do, or the events are in no index anyway. */
  lemma CleanupKeepsAgreementExactly(h: History, ttl: int, now: int)
    requires Agrees(h)
    ensures Agrees(Cleanup(h, ttl, now))
       <==> ttl == 0 || SomeEventIsValid(h, now - ttl) || forall e :: e in h.events ==> !IsIndexed(e)
  {
    if ttl != 0 {
      var n := ExpiredPrefix(h.events, now - ttl);
      var after := Cleanup(h, ttl, now);
      RemoveAllKeepsIndexes(h, h.events, n);
      if n < |h.events| {
        assert h.events[n] in h.events;
      } else {
        assert h.events[n..] == [];
        EmptyIndexesAgree(after);
      }
    }
  }

  /** Empty indexes agree with events exactly when none of them should be indexed. */
  lemma EmptyIndexesAgree(h: History)
    requires Indexes(h, [])
    ensures Agrees(h) <==> forall e :: e in h.events ==> !IsIndexed(e)
  {
    if forall e :: e in h.events ==> !IsIndexed(e) {
      forall key: Key | key.name != ""
        ensures Having(h.events, key) == []
      {
        NothingHaving(h.events, key);
      }
    } else {
      var e :| e in h.events && IsIndexed(e);
      var key := if e.kind != "" then ByKind(e.kind) else if e.namespace != "" then ByNamespace(e.namespace) else ByClient(e.client);
      HavingMembers(h.events, key, e);
      assert h.Lookup(key) == Having([], key);
    }
  }

  lemma {:induction false} NothingHaving(events: seq<EventMessage>, key: Key)
    requires forall e :: e in events ==> !HasKey(e, key)
    ensures Having(events, key) == []
  {
    if events != [] {
      assert events[0] in events;
      NothingHaving(events[1..], key);
    }
  }

  lemma {:induction false} HavingMembers(events: seq<EventMessage>, key: Key, e: EventMessage)
    ensures e in Having(events, key) <==> e in events && HasKey(e, key)
  {
    if events != [] {
      HavingMembers(events[1..], key, e);
      assert events == [events[0]] + events[1..];
    }
  }

  // ---------------------------------------------------------------------
  // Queries
  // ---------------------------------------------------------------------

  datatype Filter = Filter(
    kind: string,
    namespace: string,
    client: string,
    since: Option<int>,
    before: Option<int>,
    limit: int,
    offset: int)
  {
    /** The index a query starts from, if any. */
    function Start(): Option<Key> {
      if kind != "" then Some(ByKind(kind))
      else if namespace != "" then Some(ByNamespace(namespace))
      else if client != "" then Some(ByClient(client))
      else None
    }
  }

  predicate MatchesFilter(e: EventMessage, f: Filter) {
    && (f.kind != "" ==> e.kind == f.kind)
    && (f.namespace != "" ==> e.namespace == f.namespace)
    && (f.since.Some? ==> e.timestamp >= f.since.value)
    && (f.before.Some? ==> e.timestamp <= f.before.value)
  }

  function Matching(events: seq<EventMessage>, f: Filter): seq<EventMessage> {
    if events == [] then []
    else (if MatchesFilter(events[0], f) then [events[0]] else []) + Matching(events[1..], f)
  }

  /** A nil result and an empty one are both an empty list here. */
  function Paginate(events: seq<EventMessage>, offset: int, limit: int): seq<EventMessage> {
    var rest := if offset <= 0 then events else if offset >= |events| then [] else events[offset..];
    if limit > 0 && |rest| > limit then rest[..limit] else rest
  }

  function Get(h: History, f: Filter): seq<EventMessage> {
    Paginate(Matching(match f.Start() case Some(key) => h.Lookup(key) case None => h.events, f), f.offset, f.limit)
  }

  /** What a linear scan should return: events of the type, the namespace and the time range
      asked for and, when neither a type nor a namespace is, of the client. */
  predicate Wanted(e: EventMessage, f: Filter) {
    && (f.kind == "" || e.kind == f.kind)
    && (f.namespace == "" || e.namespace == f.namespace)
    && (f.client == "" || f.kind != "" || f.namespace != "" || e.client == f.client)
    && (f.since == None || f.since.value <= e.timestamp)
    && (f.before == None || e.timestamp <= f.before.value)
  }

  function Scan(events: seq<EventMessage>, f: Filter): seq<EventMessage> {
    if events == [] then []
    else (if Wanted(events[0], f) then [events[0]] else []) + Scan(events[1..], f)
  }

  lemma WantedIsIndexed(e: EventMessage, f: Filter)
    ensures match f.Start()
            case Some(key) => Wanted(e, f) <==> HasKey(e, key) && MatchesFilter(e, f)
            case None => Wanted(e, f) <==> MatchesFilter(e, f)
  {
  }

  lemma {:induction false} MatchingIsScan(events: seq<EventMessage>, f: Filter)
    requires f.Start().None?
    ensures Matching(events, f) == Scan(events, f)
  {
    hide Wanted, MatchesFilter;
    if events != [] {
      WantedIsIndexed(events[0], f);
      MatchingIsScan(events[1..], f);
    }
  }

  lemma {:induction false} MatchingHavingIsScan(events: seq<EventMessage>, f: Filter, key: Key)
    requires f.Start() == Some(key)
    ensures Matching(Having(events, key), f) == Scan(events, f)
  {
    hide Wanted, MatchesFilter, HasKey;
    if events != [] {
      WantedIsIndexed(events[0], f);
      MatchingHavingIsScan(events[1..], f, key);
      var rest := Having(events[1..], key);
      assert ([events[0]] + rest)[1..] == rest && [] + rest == rest;
    }
  }

  /** A query through an index returns what a linear scan of the events would. */
  lemma GetIsScan(h: History, f: Filter)
    requires Agrees(h)
    ensures Get(h, f) == Paginate(Scan(h.events, f), f.offset, f.limit)
  {
    match f.Start()
    case Some(key) => MatchingHavingIsScan(h.events, f, key);
    case None => MatchingIsScan(h.events, f);
  }

  /** The page is the results from the offset on, up to the limit. A negative offset is
      none, and a limit that is not positive is none either. */
  lemma PageIsSlice(events: seq<EventMessage>, offset: int, limit: int, i: nat)
    ensures var start, page := if offset < 0 then 0 else offset, Paginate(events, offset, limit);
      && (start >= |events| ==> page == [])
      && (start < |events| ==> |page| == if 0 < limit < |events| - start then limit else |events| - start)
      && (i < |page| ==> start + i < |events| && page[i] == events[start + i])
  {
  }

  /** The pages from an offset on, each as many results further as the limit says. */
  function PagesFrom(events: seq<EventMessage>, offset: nat, limit: int): seq<seq<EventMessage>>
    requires limit > 0
    decreases |events| - offset
  {
    if offset >= |events| then [] else [Paginate(events, offset, limit)] + PagesFrom(events, offset + limit, limit)
  }

  function Joined(pages: seq<seq<EventMessage>>): seq<EventMessage> {
    if pages == [] then [] else pages[0] + Joined(pages[1..])
  }

  /** Going through a result page by page yields every result once and in order. */
  lemma {:induction false} PagesTile(events: seq<EventMessage>, offset: nat, limit: int)
    requires limit > 0 && offset <= |events|
    ensures Joined(PagesFrom(events, offset, limit)) == events[offset..]
    ensures forall k :: 0 <= k < |PagesFrom(events, offset, limit)| ==> 0 < |PagesFrom(events, offset, limit)[k]| <= limit
    decreases |events| - offset
  {
    if offset < |events| {
      var next := if offset + limit < |events| then offset + limit else |events|;
      if offset + limit < |events| {
        PagesTile(events, next, limit);
      }
      var rest := PagesFrom(events, offset + limit, limit);
      assert ([Paginate(events, offset, limit)] + rest)[1..] == rest;
      assert Paginate(events, offset, limit) == events[offset..next];
      assert events[offset..] == events[offset..next] + events[next..];
    }
  }

  // ---------------------------------------------------------------------
  // The client criterion
  // ---------------------------------------------------------------------

  /** The filter as its fields are documented, where a client always counts. */
  predicate MeetsEveryCriterion(e: EventMessage, f: Filter) {
    && (f.kind == "" || e.kind == f.kind)
    && (f.namespace == "" || e.namespace == f.namespace)
    && (f.client == "" || e.client == f.client)
    && (f.since == None || f.since.value <= e.timestamp)
    && (f.before == None || e.timestamp <= f.before.value)
  }

  function ScanEveryCriterion(events: seq<EventMessage>, f: Filter): seq<EventMessage> {
    if events == [] then []
    else (if MeetsEveryCriterion(events[0], f) then [events[0]] else []) + ScanEveryCriterion(events[1..], f)
  }

  predicate TimeRangeIsEmpty(f: Filter) {
    f.since.Some? && f.before.Some? && f.since.value > f.before.value
  }

  /** The client criterion is honoured for every history exactly if no other criterion
      selects an index first; next to a type or a namespace it is ignored. */
  lemma ClientIsHonouredExactly(f: Filter)
    ensures (forall events :: Scan(events, f) == ScanEveryCriterion(events, f))
       <==> f.client == "" || (f.kind == "" && f.namespace == "") || TimeRangeIsEmpty(f)
  {
    if f.client == "" || (f.kind == "" && f.namespace == "") || TimeRangeIsEmpty(f) {
      forall events
        ensures Scan(events, f) == ScanEveryCriterion(events, f)
      {
        SameScans(events, f);
      }
    } else {
      var when := if f.since.Some? then f.since.value else if f.before.Some? then f.before.value else 0;
      var e := EventMessage(0, f.kind, f.namespace, "", when);
      assert Wanted(e, f) && !MeetsEveryCriterion(e, f);
      assert [e][1..] == [];
      assert Scan([e], f) == [e] && ScanEveryCriterion([e], f) == [];
    }
  }

  lemma {:induction false} SameScans(events: seq<EventMessage>, f: Filter)
    requires f.client == "" || (f.kind == "" && f.namespace == "") || TimeRangeIsEmpty(f)
    ensures Scan(events, f) == ScanEveryCriterion(events, f)
  {
    if events != [] {
      SameScans(events[1..], f);
    }
  }

  // ---------------------------------------------------------------------
  // Whole runs
  // ---------------------------------------------------------------------

  datatype Op = AddOp(event: EventMessage) | ClearOp | CleanupOp(now: int)

  function Apply(h: History, maxSize: int, ttl: int, op: Op): History {
    match op
    case AddOp(e) => (match Add(h, maxSize, e) case Some(added) => added case None => h)
    case ClearOp => EMPTY_HISTORY
    case CleanupOp(now) => Cleanup(h, ttl, now)
  }

  function Run(maxSize: int, ttl: int, ops: seq<Op>): History {
    if ops == [] then EMPTY_HISTORY
    else Apply(Run(maxSize, ttl, ops[..|ops| - 1]), maxSize, ttl, ops[|ops| - 1])
  }

  /** A cleanup that leaves something, or finds nothing to take out of an index. */
  ghost predicate IsHarmless(h: History, ttl: int, now: int) {
    ttl == 0 || SomeEventIsValid(h, now - ttl) || forall e :: e in h.events ==> !IsIndexed(e)
  }

  /** After any run of additions, clearings and harmless cleanups the indexes agree with
      the events, the history is within its bound, and every query is a linear scan. */
  lemma {:induction false} RunsKeepAgreement(maxSize: int, ttl: int, ops: seq<Op>, f: Filter)
    requires forall k :: 0 <= k < |ops| && ops[k].CleanupOp? ==> IsHarmless(Run(maxSize, ttl, ops[..k]), ttl, ops[k].now)
    ensures var h := Run(maxSize, ttl, ops);
      && Agrees(h) && |h.events| <= (if maxSize > 0 then maxSize else 0)
      && Get(h, f) == Paginate(Scan(h.events, f), f.offset, f.limit)
  {
    if ops != [] {
      var last := |ops| - 1;
      assert forall k :: 0 <= k < last ==> ops[..last][..k] == ops[..k];
      RunsKeepAgreement(maxSize, ttl, ops[..last], f);
      var h := Run(maxSize, ttl, ops[..last]);
      match ops[last]
      case AddOp(e) =>
        if Add(h, maxSize, e).Some? {
          AddKeepsAgreement(h, maxSize, e);
        }
      case ClearOp =>
      case CleanupOp(now) =>
        CleanupKeepsAgreementExactly(h, ttl, now);
        CleanupShrinks(h, ttl, now);
    }
    GetIsScan(Run(maxSize, ttl, ops), f);
  }

  /** What an addition does to the events: there is room, or the oldest one goes, or there
      is no room for any event at all. */
  lemma AddMeaning(h: History, maxSize: int, e: EventMessage)
    ensures Add(h, maxSize, e).None? <==> maxSize <= 0 && h.events == []
    ensures |h.events| < maxSize ==> Add(h, maxSize, e).Some? && Add(h, maxSize, e).value.events == h.events + [e]
    ensures |h.events| >= maxSize && h.events != [] ==>
      Add(h, maxSize, e).Some? && Add(h, maxSize, e).value.events == h.events[1..] + [e]
  {
    hide AddToIndex, RemoveFromIndex;
    assert AddToIndex(h.(events := h.events + [e]), e).events == h.events + [e] by {
      IndexingKeepsEvents(h.(events := h.events + [e]), e);
    }
    if h.events != [] {
      var moved := h.(events := h.events[1..] + [e]);
      IndexingKeepsEvents(moved, h.events[0]);
      IndexingKeepsEvents(RemoveFromIndex(moved, h.events[0]), e);
    }
  }

  lemma IndexingKeepsEvents(h: History, e: EventMessage)
    ensures AddToIndex(h, e).events == h.events && RemoveFromIndex(h, e).events == h.events
  {
  }

  /** What a cleanup does to the events: it cuts the run of expired ones off the front, unless
      every event is expired or expiry is off. */
  lemma CleanupMeaning(h: History, ttl: int, now: int, i: nat)
    requires i < |h.events| && h.events[i].timestamp > now - ttl
    requires forall k :: 0 <= k < i ==> h.events[k].timestamp <= now - ttl
    ensures Cleanup(h, ttl, now).events == if ttl == 0 then h.events else h.events[i..]
  {
  }

  lemma AllExpiredStay(h: History, ttl: int, now: int)
    requires forall k :: 0 <= k < |h.events| ==> h.events[k].timestamp <= now - ttl
    ensures Cleanup(h, ttl, now).events == h.events
  {
  }

  lemma CleanupShrinks(h: History, ttl: int, now: int)
    ensures |Cleanup(h, ttl, now).events| <= |h.events|
  {
  }

  // ---------------------------------------------------------------------
  // Runs in which every event expires
  // ---------------------------------------------------------------------

  /** The indexes are behind: they hold the events from k on, and none from before. */
  ghost predicate Lags(h: History, k: nat) {
    k <= |h.events| && Indexes(h, h.events[k..]) && Apart(h.events, k)
  }

  ghost predicate Apart(events: seq<EventMessage>, k: nat) {
    forall i, j :: 0 <= i < k <= j < |events| ==> events[i] != events[j]
  }

  /** An event that the history still holds is added again only if no cleanup found it
      expired before. */
  ghost predicate AddsNoExpiredAgain(maxSize: int, ttl: int, ops: seq<Op>) {
    forall k :: 0 <= k < |ops| && ops[k].AddOp? ==>
      ops[k].event !in Run(maxSize, ttl, ops[..k]).events || !WasExpired(ops[k].event, ttl, ops[..k])
  }

  /** Some cleanup of the run found the event expired. */
  ghost predicate WasExpired(e: EventMessage, ttl: int, ops: seq<Op>) {
    ttl != 0 && exists j :: 0 <= j < |ops| && ops[j].CleanupOp? && e.timestamp <= ops[j].now - ttl
  }

  lemma {:induction false} RemoveAbsent(list: seq<EventMessage>, e: EventMessage)
    requires e !in list
    ensures RemoveOne(list, e) == list
  {
    if list != [] {
      RemoveAbsent(list[1..], e);
    }
  }

  lemma RemoveUnindexed(h: History, events: seq<EventMessage>, e: EventMessage)
    requires Indexes(h, events) && e !in events
    ensures Indexes(RemoveFromIndex(h, e), events)
  {
    forall key: Key | key.name != ""
      ensures RemoveFromIndex(h, e).Lookup(key) == Having(events, key)
    {
      RemovedLookup(h, e, key);
      HavingMembers(events, key, e);
      RemoveAbsent(h.Lookup(key), e);
    }
  }

  /** Taking events off the front leaves alone what the indexes had lost already. */
  lemma {:induction false} RemoveAllLagging(h: History, events: seq<EventMessage>, k: nat, n: nat)
    requires k <= |events| && n <= |events| && Apart(events, k) && Indexes(h, events[k..])
    ensures Indexes(RemoveAllFromIndex(h, events[..n]), events[if k < n then n else k..])
    ensures RemoveAllFromIndex(h, events[..n]).events == h.events
    decreases n
  {
    hide Indexes, RemoveFromIndex;
    if k == 0 {
      assert events[0..] == events;
      RemoveAllKeepsIndexes(h, events, n);
    } else if n > 0 {
      RemoveUnindexed(h, events[k..], events[0]);
      assert events[1..][k - 1..] == events[k..];
      RemoveAllLagging(RemoveFromIndex(h, events[0]), events[1..], k - 1, n - 1);
      assert events[..n][1..] == events[1..][..n - 1] && events[..n][0] == events[0];
      SameEvents(h, events[0]);
      var m := if k < n then n else k;
      assert events[1..][m - 1..] == events[m..];
    }
  }

  lemma SameEvents(h: History, e: EventMessage)
    ensures RemoveFromIndex(h, e).events == h.events
  {
  }

  lemma RemoveOldestLagging(h: History, k: nat)
    requires Lags(h, k) && h.events != []
    ensures Indexes(RemoveFromIndex(h, h.events[0]), h.events[if k == 0 then 1 else k..])
  {
    hide Indexes, RemoveFromIndex;
    if k == 0 {
      assert h.events[0..] == h.events;
      RemoveKeepsIndexes(h, h.events);
    } else {
      RemoveUnindexed(h, h.events[k..], h.events[0]);
    }
  }

  /** Indexes only say something about the three maps. */
  lemma IndexesIgnoreEvents(h: History, other: seq<EventMessage>, events: seq<EventMessage>)
    ensures Indexes(h.(events := other), events) == Indexes(h, events)
  {
    assert forall key: Key :: h.(events := other).Lookup(key) == h.Lookup(key);
  }

  lemma AddKeepsLag(h: History, maxSize: int, e: EventMessage, k: nat)
    requires Lags(h, k) && e !in h.events[..k] && Add(h, maxSize, e).Some?
    ensures var added := Add(h, maxSize, e).value;
      && Lags(added, if |h.events| < maxSize || k == 0 then k else k - 1)
      && added.events == h.events[if |h.events| < maxSize then 0 else 1..] + [e]
  {
    hide Indexes;
    var front := if |h.events| < maxSize then 0 else 1;
    var from := if k < front then front else k;
    var kept := h.events[front..] + [e];
    assert kept[from - front..] == h.events[from..] + [e];
    if |h.events| >= maxSize {
      RemoveOldestLagging(h, k);
      var g := RemoveFromIndex(h, h.events[0]);
      IndexesIgnoreEvents(g, kept, h.events[from..]);
      AddKeepsIndexes(g.(events := kept), h.events[from..], e);
    } else {
      assert h.events[0..] == h.events;
      IndexesIgnoreEvents(h, kept, h.events[from..]);
      AddKeepsIndexes(h.(events := kept), h.events[from..], e);
    }
  }

  lemma CleanupKeepsLag(h: History, ttl: int, now: int, k: nat)
    requires Lags(h, k) && ttl != 0
    ensures var n, after := ExpiredPrefix(h.events, now - ttl), Cleanup(h, ttl, now);
      && Indexes(after, h.events[if k < n then n else k..])
      && after.events == (if n < |h.events| then h.events[n..] else h.events)
      && Lags(after, if n < |h.events| then (if k < n then 0 else k - n) else |h.events|)
  {
    hide Indexes, RemoveAllFromIndex;
    var n := ExpiredPrefix(h.events, now - ttl);
    RemoveAllLagging(h, h.events, k, n);
    var left := if n < |h.events| then h.events[n..] else h.events;
    IndexesIgnoreEvents(RemoveAllFromIndex(h, h.events[..n]), left, h.events[if k < n then n else k..]);
    if n < |h.events| {
      assert h.events[n..][(if k < n then 0 else k - n)..] == h.events[if k < n then n else k..];
    }
  }

  lemma StillExpired(e: EventMessage, ttl: int, ops: seq<Op>, op: Op)
    requires WasExpired(e, ttl, ops)
    ensures WasExpired(e, ttl, ops + [op])
  {
    var j :| 0 <= j < |ops| && ops[j].CleanupOp? && e.timestamp <= ops[j].now - ttl;
    assert (ops + [op])[j] == ops[j];
  }

  /** In every run, cleanups that expire everything included, the indexes hold a suffix of
      the events, and every event before it was expired at some cleanup. */
  lemma {:induction false} RunsIndexASuffix(maxSize: int, ttl: int, ops: seq<Op>) returns (k: nat)
    requires AddsNoExpiredAgain(maxSize, ttl, ops)
    ensures var h := Run(maxSize, ttl, ops);
      Lags(h, k) && forall e :: e in h.events[..k] ==> WasExpired(e, ttl, ops)
  {
    k := 0;
    if ops != [] {
      var last, op := |ops| - 1, ops[|ops| - 1];
      assert forall i :: 0 <= i < last ==> ops[..last][..i] == ops[..i];
      var j := RunsIndexASuffix(maxSize, ttl, ops[..last]);
      assert ops == ops[..last] + [op];
      k := StepIndexesASuffix(Run(maxSize, ttl, ops[..last]), maxSize, ttl, ops[..last], op, j);
    }
  }

  lemma StepIndexesASuffix(h: History, maxSize: int, ttl: int, ops: seq<Op>, op: Op, j: nat) returns (k: nat)
    requires Lags(h, j) && forall e :: e in h.events[..j] ==> WasExpired(e, ttl, ops)
    requires op.AddOp? ==> op.event !in h.events || !WasExpired(op.event, ttl, ops)
    ensures var after := Apply(h, maxSize, ttl, op);
      Lags(after, k) && forall e :: e in after.events[..k] ==> WasExpired(e, ttl, ops + [op])
  {
    hide Lags, Cleanup, WasExpired;
    LagIsBounded(h, j);
    forall e | e in h.events[..j]
      ensures WasExpired(e, ttl, ops + [op])
    {
      StillExpired(e, ttl, ops, op);
    }
    k := j;
    match op
    case AddOp(e) =>
      if Add(h, maxSize, e).Some? {
        AddKeepsLag(h, maxSize, e, j);
        k := if |h.events| < maxSize || j == 0 then j else j - 1;
        var front := if |h.events| < maxSize then 0 else 1;
        assert forall x :: x in (h.events[front..] + [e])[..k] ==> x in h.events[..j];
      }
    case ClearOp =>
      k := 0;
      NothingLags();
    case CleanupOp(now) =>
      if ttl != 0 {
        k := CleanupStep(h, ttl, ops, now, j);
      } else {
        CleanupWithoutTtl(h, now);
      }
  }

  lemma LagIsBounded(h: History, k: nat)
    requires Lags(h, k)
    ensures k <= |h.events|
  {
  }

  lemma NothingLags()
    ensures Lags(EMPTY_HISTORY, 0)
  {
  }

  lemma CleanupWithoutTtl(h: History, now: int)
    ensures Cleanup(h, 0, now) == h
  {
  }

  lemma CleanupStep(h: History, ttl: int, ops: seq<Op>, now: int, j: nat) returns (k: nat)
    requires Lags(h, j) && ttl != 0
    requires forall e :: e in h.events[..j] ==> WasExpired(e, ttl, ops + [CleanupOp(now)])
    ensures var after := Cleanup(h, ttl, now);
      Lags(after, k) && forall e :: e in after.events[..k] ==> WasExpired(e, ttl, ops + [CleanupOp(now)])
  {
    LagIsBounded(h, j);
    hide Cleanup, Indexes, Lags;
    CleanupKeepsLag(h, ttl, now, j);
    var n := ExpiredPrefix(h.events, now - ttl);
    if n < |h.events| {
      k := if j < n then 0 else j - n;
      assert forall x :: x in h.events[n..][..k] ==> x in h.events[..j];
    } else {
      k := |h.events|;
      assert (ops + [CleanupOp(now)])[|ops|] == CleanupOp(now);
    }
  }

  /** Queries through a lagging index miss events that were expired, and no others. */
  lemma LaggingQueryIsScan(h: History, f: Filter, k: nat)
    requires Lags(h, k) && f.Start().Some?
    ensures Get(h, f) == Paginate(Scan(h.events[k..], f), f.offset, f.limit)
  {
    MatchingHavingIsScan(h.events[k..], f, f.Start().value);
  }

  lemma ExpiredBefore(events: seq<EventMessage>, ttl: int, ops: seq<Op>, now: int, k: nat)
    requires k <= |events| && forall e :: e in events[..k] ==> WasExpired(e, ttl, ops)
    requires forall j :: 0 <= j < |ops| && ops[j].CleanupOp? ==> ops[j].now <= now
    ensures k > 0 ==> ttl != 0
    ensures forall i :: 0 <= i < k ==> events[i].timestamp <= now - ttl
  {
    forall i | 0 <= i < k
      ensures ttl != 0 && events[i].timestamp <= now - ttl
    {
      assert WasExpired(events[..k][i], ttl, ops);
    }
    if k > 0 {
      assert WasExpired(events[..k][0], ttl, ops);
    }
  }

  /** Whatever earlier cleanups did to the indexes, one that is no earlier than they were
      leaves the agreement exactly when it leaves an unexpired event, or has nothing to do,
      or no event belongs in an index. */
  lemma CleanupRestoresAgreementExactly(maxSize: int, ttl: int, ops: seq<Op>, now: int)
    requires AddsNoExpiredAgain(maxSize, ttl, ops)
    requires forall j :: 0 <= j < |ops| && ops[j].CleanupOp? ==> ops[j].now <= now
    ensures var h := Run(maxSize, ttl, ops);
      Agrees(Cleanup(h, ttl, now))
      <==> ttl == 0 || SomeEventIsValid(h, now - ttl) || forall e :: e in h.events ==> !IsIndexed(e)
  {
    hide Run, Indexes, Cleanup, RemoveAllFromIndex;
    var h := Run(maxSize, ttl, ops);
    var k := RunsIndexASuffix(maxSize, ttl, ops);
    ExpiredBefore(h.events, ttl, ops, now, k);
    if ttl == 0 {
      CleanupWithoutTtl(h, now);
      assert h.events[0..] == h.events;
    } else {
      CleanupKeepsLag(h, ttl, now, k);
      var n := ExpiredPrefix(h.events, now - ttl);
      if n < |h.events| {
        assert SomeEventIsValid(h, now - ttl) by { assert h.events[n] in h.events; }
        var after := Cleanup(h, ttl, now);
        assert after.events[0..] == after.events;
      } else {
        assert h.events[n..] == [];
        EmptyIndexesAgree(Cleanup(h, ttl, now));
      }
    }
  }

  lemma RunStep(maxSize: int, ttl: int, ops: seq<Op>, op: Op)
    ensures Run(maxSize, ttl, ops + [op]) == Apply(Run(maxSize, ttl, ops), maxSize, ttl, op)
  {
    assert (ops + [op])[..|ops|] == ops;
  }

  lemma AddLookup(h: History, maxSize: int, ttl: int, e: EventMessage, key: Key)
    requires HasKey(e, key) && |h.events| < maxSize
    ensures var after := Apply(h, maxSize, ttl, AddOp(e));
      after.events == h.events + [e] && after.Lookup(key) == h.Lookup(key) + [e]
  {
    AddedLookup(h.(events := h.events + [e]), e, key);
  }

  lemma AddToFullLookup(h: History, maxSize: int, ttl: int, e: EventMessage, key: Key)
    requires HasKey(e, key) && h.events != [] && |h.events| >= maxSize && HasKey(h.events[0], key)
    ensures var after := Apply(h, maxSize, ttl, AddOp(e));
      after.events == h.events[1..] + [e] && after.Lookup(key) == RemoveOne(h.Lookup(key), h.events[0]) + [e]
  {
    var moved := h.(events := h.events[1..] + [e]);
    RemovedLookup(moved, h.events[0], key);
    AddedLookup(RemoveFromIndex(moved, h.events[0]), e, key);
  }

  /** Adding an expired event again while it is held is where this ends. With room for three
      events, e expires alone, x arrives, e is added again, and y pushes the first copy of e
      out: the index loses the second copy, and a cleanup that leaves x does not bring it back. */
  lemma ExpiredEventAddedAgain(e: EventMessage, x: EventMessage, y: EventMessage, key: Key, ttl: int, now: int)
    requires HasKey(e, key) && HasKey(x, key) && HasKey(y, key) && y != e
    requires ttl != 0 && e.timestamp <= now - ttl < x.timestamp
    ensures var h := Run(3, ttl, [AddOp(e), CleanupOp(now), AddOp(x), AddOp(e), AddOp(y)]);
      SomeEventIsValid(h, now - ttl) && !Agrees(Cleanup(h, ttl, now))
  {
    var h := RunOfFive(3, ttl, AddOp(e), CleanupOp(now), AddOp(x), AddOp(e), AddOp(y));
    hide Run, Apply, Cleanup, HasKey, Indexes, SomeEventIsValid, History.Lookup;
    SecondCopyIsLost(e, x, y, key, ttl, now);
    LossStays(h, e, x, y, key, ttl, now);
  }

  function Five(maxSize: int, ttl: int, a: Op, b: Op, c: Op, d: Op, e: Op): History {
    var h := Apply(Apply(EMPTY_HISTORY, maxSize, ttl, a), maxSize, ttl, b);
    Apply(Apply(Apply(h, maxSize, ttl, c), maxSize, ttl, d), maxSize, ttl, e)
  }

  lemma RunOfFive(maxSize: int, ttl: int, a: Op, b: Op, c: Op, d: Op, e: Op) returns (h: History)
    ensures h == Run(maxSize, ttl, [a, b, c, d, e]) == Five(maxSize, ttl, a, b, c, d, e)
  {
    h := Run(maxSize, ttl, [a, b, c, d, e]);
    assert Run(maxSize, ttl, []) == EMPTY_HISTORY;
    hide Run, Apply;
    RunStep(maxSize, ttl, [], a);
    RunStep(maxSize, ttl, [a], b);
    RunStep(maxSize, ttl, [a, b], c);
    RunStep(maxSize, ttl, [a, b, c], d);
    RunStep(maxSize, ttl, [a, b, c, d], e);
    Pairs(a, b);
    Triples(a, b, c);
    Longer(a, b, c, d, e);
  }

  lemma LossStays(h: History, e: EventMessage, x: EventMessage, y: EventMessage, key: Key, ttl: int, now: int)
    requires h.events == [x, e, y] && h.Lookup(key) == [x, y] && HasKey(e, key) && e != x && e != y
    requires x.timestamp > now - ttl
    ensures SomeEventIsValid(h, now - ttl) && !Agrees(Cleanup(h, ttl, now))
  {
    NothingExpires(h, ttl, now);
    assert x in h.events && e in h.events;
    HavingMembers(h.events, key, e);
    KeysAreNamed(e, key);
    hide Having, Cleanup, HasKey, History.Lookup;
  }

  lemma KeysAreNamed(e: EventMessage, key: Key)
    requires HasKey(e, key)
    ensures key.name != ""
  {
  }

  lemma SecondCopyIsLost(e: EventMessage, x: EventMessage, y: EventMessage, key: Key, ttl: int, now: int)
    requires HasKey(e, key) && HasKey(x, key) && HasKey(y, key) && x != e
    requires ttl != 0 && e.timestamp <= now - ttl
    ensures var h := Five(3, ttl, AddOp(e), CleanupOp(now), AddOp(x), AddOp(e), AddOp(y));
      h.events == [x, e, y] && h.Lookup(key) == [x, y]
  {
    var h2 := AddedAndExpired(e, ttl, now, key);
    hide Apply, HasKey, History.Lookup, RemoveOne;
    var h3 := Apply(h2, 3, ttl, AddOp(x));
    AddLookup(h2, 3, ttl, x, key);
    Pairs(e, x);
    var h4 := Apply(h3, 3, ttl, AddOp(e));
    AddLookup(h3, 3, ttl, e, key);
    Pairs(x, e);
    Triples(e, x, e);
    var h := Apply(h4, 3, ttl, AddOp(y));
    AddToFullLookup(h4, 3, ttl, y, key);
    SecondCopyGoes(x, e);
    Pairs(x, y);
    Triples(x, e, y);
  }

  lemma Pairs<T>(a: T, b: T)
    ensures [a] + [b] == [a, b] && [] + [a] == [a]
  {
  }

  lemma Longer<T>(a: T, b: T, c: T, d: T, e: T)
    ensures [a, b, c] + [d] == [a, b, c, d] && [a, b, c, d] + [e] == [a, b, c, d, e]
  {
  }

  lemma Triples<T>(a: T, b: T, c: T)
    ensures [a, b] + [c] == [a, b, c] && [a, b, c][1..] == [b, c] && [a, b, c][0] == a
  {
  }

  lemma AddedAndExpired(e: EventMessage, ttl: int, now: int, key: Key) returns (h: History)
    requires HasKey(e, key) && ttl != 0 && e.timestamp <= now - ttl
    ensures h == Apply(Apply(EMPTY_HISTORY, 3, ttl, AddOp(e)), 3, ttl, CleanupOp(now))
    ensures h.events == [e] && h.Lookup(key) == []
  {
    var h1 := Apply(EMPTY_HISTORY, 3, ttl, AddOp(e));
    AddLookup(EMPTY_HISTORY, 3, ttl, e, key);
    AddKeepsAgreement(EMPTY_HISTORY, 3, e);
    ExpiresAlone(h1, e, ttl, now, key);
    h := Cleanup(h1, ttl, now);
  }

  lemma ExpiresAlone(h: History, e: EventMessage, ttl: int, now: int, key: Key)
    requires Agrees(h) && h.events == [e] && HasKey(e, key) && ttl != 0 && e.timestamp <= now - ttl
    ensures Cleanup(h, ttl, now).events == [e] && Cleanup(h, ttl, now).Lookup(key) == []
  {
    assert h.events[0..] == h.events && h.events[1..] == [];
    CleanupKeepsLag(h, ttl, now, 0);
  }

  lemma SecondCopyGoes(x: EventMessage, e: EventMessage)
    requires x != e
    ensures RemoveOne([x, e], e) == [x]
  {
    assert [x, e][1..] == [e] && [e][1..] == [];
    assert RemoveOne([e], e) == [];
  }

  lemma NothingExpires(h: History, ttl: int, now: int)
    requires h.events != [] && h.events[0].timestamp > now - ttl
    ensures Cleanup(h, ttl, now) == h
  {
    assert h.events[..0] == [] && h.events[0..] == h.events;
  }
}

/** The history object, which updates its events and indexes in place. */
module EventLog {
  import opened EventHistory

  class EventLog {
    const maxSize: int
    const ttl: int
    var events: seq<EventMessage>
    var byKind: Index
    var byNamespace: Index
    var byClient: Index

    function View(): History
      reads this
    {
      History(events, byKind, byNamespace, byClient)
    }

    constructor (maxSize: int, ttl: int)
      ensures View() == EMPTY_HISTORY && this.maxSize == maxSize && this.ttl == ttl
    {
      this.maxSize, this.ttl := maxSize, ttl;
      events, byKind, byNamespace, byClient := [], map[], map[], map[];
    }

    /** ok is false where an addition to a history of no size panics. */
    method Add(e: EventMessage) returns (ok: bool)
      modifies this
      ensures ok <==> EventHistory.Add(old(View()), maxSize, e).Some?
      ensures View() == if ok then EventHistory.Add(old(View()), maxSize, e).value else old(View())
    {
      if |events| >= maxSize {
        if events == [] {
          return false;
        }
        var oldest := events[0];
        events := events[1..];
        RemoveFromIndex(oldest);
      }
      events := events + [e];
      AddToIndex(e);
      ok := true;
    }

    method AddToIndex(e: EventMessage)
      modifies this`byKind, this`byNamespace, this`byClient
      ensures View() == EventHistory.AddToIndex(old(View()), e)
    {
      if e.kind != "" {
        byKind := byKind[e.kind := At(byKind, e.kind) + [e]];
      }
      if e.namespace != "" {
        byNamespace := byNamespace[e.namespace := At(byNamespace, e.namespace) + [e]];
      }
      if e.client != "" {
        byClient := byClient[e.client := At(byClient, e.client) + [e]];
      }
    }

    method RemoveFromIndex(e: EventMessage)
      modifies this`byKind, this`byNamespace, this`byClient
      ensures View() == EventHistory.RemoveFromIndex(old(View()), e)
    {
      if e.kind != "" {
        var rest := RemoveFromSlice(At(byKind, e.kind), e);
        byKind := byKind[e.kind := rest];
      }
      if e.namespace != "" {
        var rest := RemoveFromSlice(At(byNamespace, e.namespace), e);
        byNamespace := byNamespace[e.namespace := rest];
      }
      if e.client != "" {
        var rest := RemoveFromSlice(At(byClient, e.client), e);
        byClient := byClient[e.client := rest];
      }
    }

    static method RemoveFromSlice(list: seq<EventMessage>, e: EventMessage) returns (rest: seq<EventMessage>)
      ensures rest == RemoveOne(list, e)
    {
      for i := 0 to |list|
        invariant e !in list[..i]
      {
        if list[i] == e {
          RemoveFirst(list, i, e);
          return list[..i] + list[i + 1..];
        }
        assert list[..i + 1] == list[..i] + [list[i]];
      }
      assert list[..|list|] == list;
      RemoveNone(list, e);
      rest := list;
    }

    method Clear()
      modifies this
      ensures View() == EMPTY_HISTORY
    {
      events, byKind, byNamespace, byClient := [], map[], map[], map[];
    }

    static method FilterEvents(candidates: seq<EventMessage>, f: Filter) returns (result: seq<EventMessage>)
      ensures result == Matching(candidates, f)
    {
      hide MatchesFilter;
      result := [];
      for i := 0 to |candidates|
        invariant Matching(candidates, f) == result + Matching(candidates[i..], f)
      {
        assert candidates[i..][1..] == candidates[i + 1..];
        if MatchesFilter(candidates[i], f) {
          result := result + [candidates[i]];
        }
      }
    }

    /** The filter runs over an index, or over all events. */
    method Get(f: Filter) returns (result: seq<EventMessage>)
      ensures result == EventHistory.Get(View(), f)
    {
      hide Matching;
      var candidates;
      if f.kind != "" {
        candidates := At(byKind, f.kind);
      } else if f.namespace != "" {
        candidates := At(byNamespace, f.namespace);
      } else if f.client != "" {
        candidates := At(byClient, f.client);
      } else {
        candidates := events;
      }
      result := FilterEvents(candidates, f);
      if f.offset > 0 {
        if f.offset >= |result| {
          return [];
        }
        result := result[f.offset..];
      }
      if f.limit > 0 && |result| > f.limit {
        result := result[..f.limit];
      }
    }

    method CleanupOldEvents(now: int)
      modifies this
      ensures View() == Cleanup(old(View()), ttl, now)
    {
      if ttl == 0 {
        return;
      }
      var cutoff, firstValid := now - ttl, 0;
      ghost var n := ExpiredPrefix(events, cutoff);
      for i := 0 to |events|
        invariant events == old(events) && firstValid == 0 && i <= n
        invariant View() == RemoveAllFromIndex(old(View()), events[..i])
      {
        if events[i].timestamp > cutoff {
          firstValid := i;
          break;
        }
        RemoveOneMore(old(View()), events, i);
        RemoveFromIndex(events[i]);
      }
      assert events[..|events|] == events;
      if firstValid > 0 {
        events := events[firstValid..];
      }
    }
  }

  lemma {:induction false} RemoveFirst(list: seq<EventMessage>, i: nat, e: EventMessage)
    requires i < |list| && list[i] == e && e !in list[..i]
    ensures RemoveOne(list, e) == list[..i] + list[i + 1..]
  {
    if i > 0 {
      assert list[0] in list[..i];
      assert list[..i] == [list[0]] + list[1..][..i - 1];
      RemoveFirst(list[1..], i - 1, e);
    }
  }

  lemma {:induction false} RemoveNone(list: seq<EventMessage>, e: EventMessage)
    requires e !in list
    ensures RemoveOne(list, e) == list
  {
    if list != [] {
      assert list[0] in list;
      RemoveNone(list[1..], e);
    }
  }

  lemma {:induction false} RemoveOneMore(h: History, events: seq<EventMessage>, i: nat)
    requires i < |events|
    ensures RemoveAllFromIndex(h, events[..i + 1]) == RemoveFromIndex(RemoveAllFromIndex(h, events[..i]), events[i])
    decreases i
  {
    if i > 0 {
      RemoveOneMore(RemoveFromIndex(h, events[0]), events[1..], i - 1);
      assert events[..i + 1][1..] == events[1..][..i] && events[..i][1..] == events[1..][..i - 1];
    }
  }
}

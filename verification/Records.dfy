/** Records of a stream, their cursors, and selections from a publish history. */
module Records {
  import opened Decimal
  import opened StringOrder
  import opened Scopes

  datatype Event = Event(name: string, payload: string, metadata: map<string, string>, timestamp: int)

  /** A record, its cursor as the number that FormatUint renders. */
  datatype Record = Record(cursor: nat, scope: Scope, event: Event, publishedAt: int)
  {
    function Cursor(): string {
      Format(cursor)
    }
  }

  datatype Matcher = Unset | Exact | Subset | Custom(matches: (Scope, Scope) -> bool)

  predicate Matches(matcher: Matcher, subscription: Scope, published: Scope) {
    match matcher
    case Unset => ExactMatch(subscription, published)
    case Exact => ExactMatch(subscription, published)
    case Subset => SubsetMatch(subscription, published)
    case Custom(matches) => matches(subscription, published)
  }

  type Buckets = map<Scope, seq<Record>>

  /** Which records of a history one looks at. */
  datatype Selection =
    | ByScope(scope: Scope)
    | ByMatch(matcher: Matcher, scope: Scope)
    | Retained(matcher: Matcher, scope: Scope, buckets: Buckets)

  predicate Picks(selection: Selection, r: Record) {
    match selection
    case ByScope(s) => r.scope == s
    case ByMatch(matcher, s) => Matches(matcher, s, r.scope)
    case Retained(matcher, s, buckets) =>
      r.scope in buckets && Matches(matcher, s, r.scope) && r in buckets[r.scope]
  }

  function Select(history: seq<Record>, selection: Selection): seq<Record> {
    if history == [] then []
    else
      var last := |history| - 1;
      Select(history[..last], selection) + if Picks(selection, history[last]) then [history[last]] else []
  }

  predicate Ascending(records: seq<Record>) {
    forall i, j :: 0 <= i < j < |records| ==> records[i].cursor < records[j].cursor
  }

  /** Cursors count the publications, from one. */
  predicate Numbered(history: seq<Record>) {
    forall k :: 0 <= k < |history| ==> history[k].cursor == k + 1
  }

  lemma SelectOne(history: seq<Record>, selection: Selection, r: Record)
    ensures Select(history + [r], selection) == Select(history, selection) + if Picks(selection, r) then [r] else []
  {
    assert (history + [r])[..|history|] == history;
  }

  lemma {:induction false} SelectAppend(a: seq<Record>, b: seq<Record>, selection: Selection)
    ensures Select(a + b, selection) == Select(a, selection) + Select(b, selection)
  {
    hide Picks;
    if b == [] {
      assert a + b == a;
    } else {
      var last := |b| - 1;
      SelectAppend(a, b[..last], selection);
      assert a + b == (a + b[..last]) + [b[last]];
      SelectOne(a + b[..last], selection, b[last]);
    }
  }

  lemma {:induction false} SelectMembers(history: seq<Record>, selection: Selection, r: Record)
    ensures r in Select(history, selection) <==> r in history && Picks(selection, r)
  {
    if history != [] {
      var last := |history| - 1;
      SelectMembers(history[..last], selection, r);
      assert history == history[..last] + [history[last]];
    }
  }

  lemma {:induction false} SelectAscends(history: seq<Record>, selection: Selection)
    requires Ascending(history)
    ensures Ascending(Select(history, selection))
  {
    if history != [] {
      var last := |history| - 1;
      var front := Select(history[..last], selection);
      SelectAscends(history[..last], selection);
      forall i | 0 <= i < |front|
        ensures front[i].cursor < history[last].cursor
      {
        SelectMembers(history[..last], selection, front[i]);
      }
    }
  }

  lemma {:induction false} SameSelection(history: seq<Record>, a: Selection, b: Selection)
    requires forall r :: r in history ==> (Picks(a, r) <==> Picks(b, r))
    ensures Select(history, a) == Select(history, b)
  {
    if history != [] {
      var last := |history| - 1;
      assert history[last] in history;
      SameSelection(history[..last], a, b);
    }
  }

  lemma SomeMember(records: seq<Record>)
    ensures records != [] ==> exists r :: r in records
  {
    assert records != [] ==> records[0] in records;
  }

  /** Two ascending sequences of the same records are equal. */
  lemma {:induction false} AscendingIsUnique(a: seq<Record>, b: seq<Record>)
    requires Ascending(a) && Ascending(b) && forall r :: r in a <==> r in b
    ensures a == b
  {
    if a == [] || b == [] {
      SomeMember(a);
      SomeMember(b);
    } else {
      var x, y := a[|a| - 1], b[|b| - 1];
      assert x in b && y in a;
      assert x == y;
      var front, other := a[..|a| - 1], b[..|b| - 1];
      assert a == front + [x] && b == other + [x];
      forall r
        ensures r in front <==> r in other
      {
        assert r in front <==> r in a && r != x;
        assert r in other <==> r in b && r != x;
      }
      AscendingIsUnique(front, other);
    }
  }

  function LastN<T>(q: seq<T>, n: nat): (r: seq<T>)
    ensures |r| <= n && |r| <= |q| && r == q[|q| - |r|..]
    ensures |r| < n ==> r == q
  {
    if |q| <= n then q else q[|q| - n..]
  }

  // ---------------------------------------------------------------------
  // Comparing cursors
  // ---------------------------------------------------------------------

  function TrimSpace(s: string): string {
    if s != "" && s[0] in " \t\r\n" then TrimSpace(s[1..])
    else if s != "" && s[|s| - 1] in " \t\r\n" then TrimSpace(s[..|s| - 1])
    else s
  }

  function CompareCursor(a: string, b: string): int {
    var left, right := Parse(TrimSpace(a)), Parse(TrimSpace(b));
    if left.Some? && right.Some? then
      if left.value < right.value then -1 else if left.value > right.value then 1 else 0
    else CompareStrings(a, b)
  }

  /** Cursors are strings, yet the stream orders them as numbers. */
  lemma CursorsCompareAsNumbers(x: Record, y: Record)
    ensures CompareCursor(x.Cursor(), y.Cursor()) < 0 <==> x.cursor < y.cursor
    ensures x.Cursor() == y.Cursor() <==> x.cursor == y.cursor
  {
    ParseFormat(x.cursor);
    ParseFormat(y.cursor);
    NothingToTrim(x.Cursor());
    NothingToTrim(y.Cursor());
  }

  lemma NothingToTrim(s: string)
    requires s != "" && forall c :: c in s ==> IsDigit(c)
    ensures TrimSpace(s) == s
  {
    assert s[0] in s && s[|s| - 1] in s;
  }
}

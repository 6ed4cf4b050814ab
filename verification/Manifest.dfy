/** Route manifests and their differences. */
module Manifest {
  import opened StringOrder

  datatype Entry = Entry(verb: string, path: string, name: string)

  datatype Change = Change(identity: string, before: Entry, after: Entry)

  datatype Diff = Diff(added: seq<Entry>, removed: seq<Entry>, changed: seq<Change>)

  // ---------------------------------------------------------------------
  // The order of entries
  // ---------------------------------------------------------------------

  /** By path, then method, then name. */
  function CompareEntries(a: Entry, b: Entry): int {
    if a.path != b.path then CompareStrings(a.path, b.path)
    else if a.verb != b.verb then CompareStrings(a.verb, b.verb)
    else CompareStrings(a.name, b.name)
  }

  /** Entries are listed by path first, then by method, then by name. */
  lemma EntryOrderMeaning(a: Entry, b: Entry)
    ensures CompareEntries(a, b) < 0 <==>
      || Before(a.path, b.path)
      || (a.path == b.path && Before(a.verb, b.verb))
      || (a.path == b.path && a.verb == b.verb && Before(a.name, b.name))
  {
    CompareMeaning(a.path, b.path);
    CompareMeaning(a.verb, b.verb);
    CompareMeaning(a.name, b.name);
    CompareIsAntisymmetric(a.path, b.path);
    CompareIsAntisymmetric(a.verb, b.verb);
    hide CompareStrings, Before;
  }

  lemma EntryOrderIsTotal(a: Entry, b: Entry)
    ensures CompareEntries(a, b) == -CompareEntries(b, a) && (CompareEntries(a, b) == 0 <==> a == b)
  {
    CompareIsAntisymmetric(a.path, b.path);
    CompareIsAntisymmetric(a.verb, b.verb);
    CompareIsAntisymmetric(a.name, b.name);
  }

  lemma EntryOrderIsTransitive(a: Entry, b: Entry, c: Entry)
    requires CompareEntries(a, b) <= 0 && CompareEntries(b, c) <= 0
    ensures CompareEntries(a, c) <= 0
  {
    EntryOrderIsTotal(a, b);
    EntryOrderIsTotal(b, c);
    if a != b && b != c {
      StrictOrderIsTransitive(a, b, c);
    }
  }

  lemma StrictOrderIsTransitive(a: Entry, b: Entry, c: Entry)
    requires CompareEntries(a, b) < 0 && CompareEntries(b, c) < 0
    ensures CompareEntries(a, c) < 0
  {
    hide CompareStrings;
    if a.path != b.path && b.path != c.path {
      Chain(a.path, b.path, c.path);
    } else if a.path == b.path == c.path && a.verb != b.verb && b.verb != c.verb {
      Chain(a.verb, b.verb, c.verb);
    } else if a.path == b.path == c.path && a.verb == b.verb == c.verb {
      Chain(a.name, b.name, c.name);
    }
  }

  lemma Chain(a: string, b: string, c: string)
    requires CompareStrings(a, b) < 0 && CompareStrings(b, c) < 0
    ensures CompareStrings(a, c) < 0 && a != c
  {
    CompareIsTransitive(a, b, c);
    CompareIsAntisymmetric(a, c);
  }

  ghost predicate IsSorted(entries: seq<Entry>) {
    forall i, j :: 0 <= i < j < |entries| ==> CompareEntries(entries[i], entries[j]) <= 0
  }

  /** A sorted list is determined by what it contains. */
  lemma {:induction false} SortedIsUnique(a: seq<Entry>, b: seq<Entry>)
    requires IsSorted(a) && IsSorted(b) && multiset(a) == multiset(b)
    ensures a == b
  {
    hide CompareEntries;
    assert |multiset(a)| == |a| && |multiset(b)| == |b|;
    if a != [] {
      assert a[0] in multiset(b) && b[0] in multiset(a);
      LeastFirst(a, b[0]);
      LeastFirst(b, a[0]);
      EntryOrderIsTotal(a[0], b[0]);
      RestIsSorted(a);
      RestIsSorted(b);
      hide IsSorted;
      SortedIsUnique(a[1..], b[1..]);
      assert a == [a[0]] + a[1..] && b == [b[0]] + b[1..];
    }
  }

  lemma RestIsSorted(entries: seq<Entry>)
    requires IsSorted(entries) && entries != []
    ensures IsSorted(entries[1..]) && multiset(entries[1..]) == multiset(entries) - multiset{entries[0]}
  {
    hide CompareEntries;
    assert entries == [entries[0]] + entries[1..];
  }

  lemma LeastFirst(entries: seq<Entry>, e: Entry)
    requires IsSorted(entries) && e in entries
    ensures CompareEntries(entries[0], e) <= 0
  {
    EntryOrderIsTotal(e, e);
  }

  // ---------------------------------------------------------------------
  // What a difference is
  // ---------------------------------------------------------------------

  /** Exactly one entry carries the name. */
  ghost predicate Names(entries: multiset<Entry>, name: string, e: Entry) {
    e.name == name && entries[e] == 1 && forall f :: f in entries && f.name == name ==> f == e
  }

  /** A non-empty name that is carried once among the entries that went and once among
      those that came identifies a changed route. */
  ghost predicate Paired(gone: multiset<Entry>, come: multiset<Entry>, name: string) {
    name != "" && (exists e :: Names(gone, name, e)) && exists e :: Names(come, name, e)
  }

  ghost predicate Leftover(entries: seq<Entry>, gone: multiset<Entry>, come: multiset<Entry>) {
    IsSorted(entries) && forall e :: multiset(entries)[e] == if Paired(gone, come, e.name) then 0 else gone[e]
  }

  ghost predicate ByIdentity(changed: seq<Change>) {
    forall i, j :: 0 <= i < j < |changed| ==> CompareStrings(changed[i].identity, changed[j].identity) < 0
  }

  ghost predicate IsChange(c: Change, gone: multiset<Entry>, come: multiset<Entry>) {
    c.identity != "" && Names(gone, c.identity, c.before) && Names(come, c.identity, c.after)
  }

  /** The difference of two manifests, by what each of them has more of. */
  ghost predicate IsDiff(before: multiset<Entry>, after: multiset<Entry>, d: Diff) {
    var gone, come := before - after, after - before;
    && Leftover(d.removed, gone, come)
    && Leftover(d.added, come, gone)
    && ByIdentity(d.changed)
    && forall c :: c in d.changed <==> IsChange(c, gone, come)
  }

  function Befores(changed: seq<Change>): seq<Entry> {
    if changed == [] then [] else Befores(changed[..|changed| - 1]) + [changed[|changed| - 1].before]
  }

  function Afters(changed: seq<Change>): seq<Entry> {
    if changed == [] then [] else Afters(changed[..|changed| - 1]) + [changed[|changed| - 1].after]
  }

  function Swapped(changed: seq<Change>): (swapped: seq<Change>)
    ensures |swapped| == |changed|
    ensures forall i :: 0 <= i < |changed| ==> swapped[i] == Change(changed[i].identity, changed[i].after, changed[i].before)
  {
    seq(|changed|, i requires 0 <= i < |changed| => Change(changed[i].identity, changed[i].after, changed[i].before))
  }

  // ---------------------------------------------------------------------
  // Differences are determined, exact and symmetric
  // ---------------------------------------------------------------------

  lemma {:induction false} ChangesAreUnique(a: seq<Change>, b: seq<Change>)
    requires ByIdentity(a) && ByIdentity(b) && forall c :: c in a <==> c in b
    ensures a == b
  {
    SomeChange(a);
    SomeChange(b);
    if a != [] && b != [] {
      LeastChange(a, b);
      var x := a[0];
      var restA, restB := a[1..], b[1..];
      assert a == [x] + restA && b == [x] + restB;
      forall c
        ensures c in restA <==> c in restB
      {
        CompareIsAntisymmetric(x.identity, x.identity);
        assert c in restA <==> c in a && c != x;
        assert c in restB <==> c in b && c != x;
      }
      ChangesAreUnique(restA, restB);
    }
  }

  lemma SomeChange(changed: seq<Change>)
    ensures changed != [] ==> exists c :: c in changed
  {
    assert changed != [] ==> changed[0] in changed;
  }

  lemma LeastChange(a: seq<Change>, b: seq<Change>)
    requires a != [] && b != [] && ByIdentity(a) && ByIdentity(b) && forall c :: c in a <==> c in b
    ensures a[0] == b[0]
  {
    hide CompareStrings;
    assert a[0] in b && b[0] in a;
    var i :| 0 <= i < |b| && b[i] == a[0];
    var j :| 0 <= j < |a| && a[j] == b[0];
    CompareIsAntisymmetric(a[0].identity, b[0].identity);
  }

  /** There is one difference, whatever the order of the entries in either manifest. */
  lemma DiffIsUnique(before: multiset<Entry>, after: multiset<Entry>, d: Diff, e: Diff)
    requires IsDiff(before, after, d) && IsDiff(before, after, e)
    ensures d == e
  {
    hide IsSorted, ByIdentity, IsChange, Paired;
    assert multiset(d.removed) == multiset(e.removed);
    assert multiset(d.added) == multiset(e.added);
    SortedIsUnique(d.removed, e.removed);
    SortedIsUnique(d.added, e.added);
    ChangesAreUnique(d.changed, e.changed);
  }

  /** Swapping the manifests swaps the roles of what was added and removed. */
  lemma SwapSwapsRoles(before: multiset<Entry>, after: multiset<Entry>, d: Diff)
    requires IsDiff(before, after, d)
    ensures IsDiff(after, before, Diff(d.removed, d.added, Swapped(d.changed)))
  {
    hide IsSorted, Names, CompareStrings;
    var gone, come := before - after, after - before;
    var swapped := Swapped(d.changed);
    forall c
      ensures c in swapped <==> IsChange(c, come, gone)
    {
      var mirrored := Change(c.identity, c.after, c.before);
      assert IsChange(c, come, gone) <==> IsChange(mirrored, gone, come);
      if mirrored in d.changed {
        var i :| 0 <= i < |d.changed| && d.changed[i] == mirrored;
        assert swapped[i] == c;
      }
    }
    assert ByIdentity(swapped);
    assert forall name :: Paired(come, gone, name) <==> Paired(gone, come, name);
  }

  lemma {:induction false} CountBefores(changed: seq<Change>, e: Entry)
    requires ByIdentity(changed) && forall c :: c in changed ==> c.before.name == c.identity
    ensures multiset(Befores(changed))[e] == if exists c :: c in changed && c.before == e then 1 else 0
  {
    hide CompareStrings;
    if changed != [] {
      var front, last := changed[..|changed| - 1], changed[|changed| - 1];
      assert changed == front + [last];
      CountBefores(front, e);
      OtherIdentities(changed);
      hide ByIdentity;
      assert last in changed;
    }
  }

  lemma OtherIdentities(changed: seq<Change>)
    requires changed != [] && ByIdentity(changed)
    ensures forall c :: c in changed[..|changed| - 1] ==> c.identity != changed[|changed| - 1].identity
  {
    forall c | c in changed[..|changed| - 1]
      ensures c.identity != changed[|changed| - 1].identity
    {
      CompareIsAntisymmetric(c.identity, c.identity);
    }
  }

  lemma {:induction false} AftersAreSwappedBefores(changed: seq<Change>)
    ensures Afters(changed) == Befores(Swapped(changed))
  {
    if changed != [] {
      var last := |changed| - 1;
      AftersAreSwappedBefores(changed[..last]);
      assert Swapped(changed)[..last] == Swapped(changed[..last]);
    }
  }

  /** What went is what was removed together with what changed. */
  lemma GoneIsRemovedOrChanged(before: multiset<Entry>, after: multiset<Entry>, d: Diff)
    requires IsDiff(before, after, d)
    ensures before - after == multiset(d.removed) + multiset(Befores(d.changed))
  {
    hide IsSorted, Befores, ByIdentity;
    var gone, come := before - after, after - before;
    forall e: Entry
      ensures gone[e] == multiset(d.removed)[e] + multiset(Befores(d.changed))[e]
    {
      CountBefores(d.changed, e);
      if Paired(gone, come, e.name) && e in gone {
        var x :| Names(gone, e.name, x);
        var y :| Names(come, e.name, y);
        assert Change(e.name, e, y) in d.changed;
      }
    }
  }

  /** Applying a difference to the first manifest gives exactly the second, with
      multiplicities, and it names a route as changed only if the route did change. */
  lemma DiffIsExact(before: multiset<Entry>, after: multiset<Entry>, d: Diff)
    requires IsDiff(before, after, d)
    ensures before - multiset(d.removed) - multiset(Befores(d.changed)) + multiset(d.added) + multiset(Afters(d.changed)) == after
    ensures forall c :: c in d.changed ==> c.before != c.after && c.before.name == c.after.name == c.identity
  {
    ChangesChange(before, after, d);
    GoneIsRemovedOrChanged(before, after, d);
    SwapSwapsRoles(before, after, d);
    hide IsDiff;
    GoneIsRemovedOrChanged(after, before, Diff(d.removed, d.added, Swapped(d.changed)));
    AftersAreSwappedBefores(d.changed);
    ExchangedParts(before, after, multiset(d.removed), multiset(Befores(d.changed)), multiset(d.added), multiset(Afters(d.changed)));
  }

  lemma ChangesChange(before: multiset<Entry>, after: multiset<Entry>, d: Diff)
    requires IsDiff(before, after, d)
    ensures forall c :: c in d.changed ==> c.before != c.after && c.before.name == c.after.name == c.identity
  {
    var gone, come := before - after, after - before;
    forall c | c in d.changed
      ensures c.before != c.after
    {
      assert c.before in gone && c.before !in come && c.after in come;
    }
  }

  lemma ExchangedParts<T>(a: multiset<T>, b: multiset<T>, lost: multiset<T>, left: multiset<T>, won: multiset<T>, joined: multiset<T>)
    requires a - b == lost + left && b - a == won + joined
    ensures a - lost - left + won + joined == b
  {
    assert a - lost - left == a - (a - b);
  }

  /** A difference is empty exactly when the manifests hold the same entries. */
  lemma EmptyDiffMeansSame(before: multiset<Entry>, after: multiset<Entry>, d: Diff)
    requires IsDiff(before, after, d)
    ensures d == Diff([], [], []) <==> before == after
  {
    DiffIsExact(before, after, d);
    GoneIsRemovedOrChanged(before, after, d);
    hide IsSorted, ByIdentity;
    if before == after {
      assert |multiset(d.removed)| == |d.removed| && |multiset(d.added)| == |d.added|;
      assert multiset(d.added) == multiset{};
      SomeChange(d.changed);
    }
  }

  // ---------------------------------------------------------------------
  // The algorithm
  // ---------------------------------------------------------------------

  /** The library sort of sortRouteManifestEntries, as insertion. */
  method SortEntries(entries: seq<Entry>) returns (sorted: seq<Entry>)
    ensures IsSorted(sorted) && multiset(sorted) == multiset(entries)
  {
    sorted := [];
    for k := 0 to |entries|
      invariant IsSorted(sorted) && multiset(sorted) == multiset(entries[..k])
    {
      assert entries[..k + 1] == entries[..k] + [entries[k]];
      sorted := InsertEntry(sorted, entries[k]);
    }
    assert entries[..|entries|] == entries;
  }

  method InsertEntry(sorted: seq<Entry>, e: Entry) returns (inserted: seq<Entry>)
    requires IsSorted(sorted)
    ensures IsSorted(inserted) && multiset(inserted) == multiset(sorted) + multiset{e}
  {
    var i := 0;
    while i < |sorted| && CompareEntries(sorted[i], e) <= 0
      invariant i <= |sorted|
      invariant forall k :: 0 <= k < i ==> CompareEntries(sorted[k], e) <= 0
    {
      i := i + 1;
    }
    InsertionIsSorted(sorted, i, e);
    inserted := sorted[..i] + [e] + sorted[i..];
  }

  lemma InsertionIsSorted(sorted: seq<Entry>, i: nat, e: Entry)
    requires IsSorted(sorted) && i <= |sorted|
    requires forall k :: 0 <= k < i ==> CompareEntries(sorted[k], e) <= 0
    requires i < |sorted| ==> CompareEntries(sorted[i], e) > 0
    ensures var inserted := sorted[..i] + [e] + sorted[i..];
            IsSorted(inserted) && multiset(inserted) == multiset(sorted) + multiset{e}
  {
    hide CompareEntries;
    assert sorted == sorted[..i] + sorted[i..];
    forall k | i <= k < |sorted|
      ensures CompareEntries(e, sorted[k]) <= 0
    {
      EntryOrderIsTotal(e, sorted[i]);
      if i < k {
        EntryOrderIsTransitive(e, sorted[i], sorted[k]);
      }
    }
  }

  lemma CountOneMore<T>(seen: multiset<T>, other: multiset<T>, e: T)
    ensures (other - seen)[e] > 0 ==>
      other - (seen + multiset{e}) == (other - seen) - multiset{e} && (seen + multiset{e}) - other == seen - other
    ensures (other - seen)[e] == 0 ==>
      other - (seen + multiset{e}) == other - seen && (seen + multiset{e}) - other == (seen - other) + multiset{e}
  {
  }

  lemma AppendLater(unmatched: seq<Entry>, entries: seq<Entry>, k: nat)
    requires IsSorted(entries) && IsSorted(unmatched) && k < |entries|
    requires forall e :: e in unmatched ==> e in entries[..k]
    ensures IsSorted(unmatched + [entries[k]])
  {
    hide CompareEntries;
    forall i | 0 <= i < |unmatched|
      ensures CompareEntries(unmatched[i], entries[k]) <= 0
    {
      assert unmatched[i] in entries[..k];
    }
  }

  /** removeMatchedManifestEntries, one of its two passes: entries whose count on the other
      side is not used up yet are dropped. */
  method RemoveMatched(entries: seq<Entry>, other: seq<Entry>) returns (unmatched: seq<Entry>)
    requires IsSorted(entries)
    ensures IsSorted(unmatched) && multiset(unmatched) == multiset(entries) - multiset(other)
  {
    hide IsSorted;
    var counts := multiset(other);
    unmatched := [];
    NothingIsSorted();
    for k := 0 to |entries|
      invariant counts == multiset(other) - multiset(entries[..k])
      invariant multiset(unmatched) == multiset(entries[..k]) - multiset(other)
      invariant IsSorted(unmatched) && forall e :: e in unmatched ==> e in entries[..k]
    {
      assert entries[..k + 1] == entries[..k] + [entries[k]];
      CountOneMore(multiset(entries[..k]), multiset(other), entries[k]);
      if counts[entries[k]] > 0 {
        counts := counts - multiset{entries[k]};
      } else {
        AppendLater(unmatched, entries, k);
        unmatched := unmatched + [entries[k]];
      }
    }
    assert entries[..|entries|] == entries;
  }

  lemma NothingIsSorted()
    ensures IsSorted([])
  {
  }

  ghost predicate CarriesAlone(entries: seq<Entry>, i: int, name: string) {
    0 <= i < |entries| && entries[i].name == name
    && forall j :: 0 <= j < |entries| && j != i ==> entries[j].name != name
  }

  ghost predicate Carried(entries: seq<Entry>, name: string) {
    exists i :: 0 <= i < |entries| && entries[i].name == name
  }

  /** How one more entry changes who is alone with a name. */
  lemma CarriedWithNext(entries: seq<Entry>, e: Entry, name: string, i: int)
    ensures Carried(entries + [e], name) <==> Carried(entries, name) || e.name == name
    ensures i < |entries| ==>
      (CarriesAlone(entries + [e], i, name) <==> CarriesAlone(entries, i, name) && e.name != name)
    ensures CarriesAlone(entries + [e], |entries|, name) <==> e.name == name && !Carried(entries, name)
  {
    var longer := entries + [e];
    assert longer[|entries|] == e;
    assert forall j :: 0 <= j < |entries| ==> longer[j] == entries[j];
  }

  /** The bookkeeping of uniqueManifestIndexesByName after some of the entries. */
  ghost predicate TracksNames(entries: seq<Entry>, indexes: map<string, nat>, duplicates: set<string>) {
    forall name :: NameTracked(entries, indexes, duplicates, name)
  }

  ghost predicate NameTracked(entries: seq<Entry>, indexes: map<string, nat>, duplicates: set<string>, name: string) {
    && (name in indexes ==> name != "" && name !in duplicates && CarriesAlone(entries, indexes[name], name))
    && (name in duplicates ==> Carried(entries, name) && forall i :: !CarriesAlone(entries, i, name))
    && (name != "" && Carried(entries, name) ==> name in indexes || name in duplicates)
  }

  /** What one more entry, at position k, does to the index and the set of duplicates. */
  function Track(indexes: map<string, nat>, duplicates: set<string>, name: string, k: nat): (map<string, nat>, set<string>) {
    if name == "" || name in duplicates then (indexes, duplicates)
    else if name in indexes then (indexes - {name}, duplicates + {name})
    else (indexes[name := k], duplicates)
  }

  lemma TrackOneMore(entries: seq<Entry>, e: Entry, indexes: map<string, nat>, duplicates: set<string>)
    requires TracksNames(entries, indexes, duplicates)
    ensures var (i, d) := Track(indexes, duplicates, e.name, |entries|); TracksNames(entries + [e], i, d)
  {
    hide NameTracked;
    var (i, d) := Track(indexes, duplicates, e.name, |entries|);
    forall name: string
      ensures NameTracked(entries + [e], i, d, name)
    {
      TrackOneName(entries, e, indexes, duplicates, name);
    }
  }

  lemma TrackOneName(entries: seq<Entry>, e: Entry, indexes: map<string, nat>, duplicates: set<string>, name: string)
    requires NameTracked(entries, indexes, duplicates, name)
    ensures var (i, d) := Track(indexes, duplicates, e.name, |entries|); NameTracked(entries + [e], i, d, name)
  {
    hide CarriesAlone, Carried;
    forall i: int
      ensures CarriesAlone(entries + [e], i, name) <==>
        if i == |entries| then e.name == name && !Carried(entries, name) else CarriesAlone(entries, i, name) && e.name != name
      ensures CarriesAlone(entries, i, name) ==> 0 <= i < |entries| && Carried(entries, name)
    {
      CarriedWithNext(entries, e, name, i);
      AloneInRange(entries, i, name);
      AloneInRange(entries + [e], i, name);
    }
    CarriedWithNext(entries, e, name, 0);
  }

  lemma TrackedIndexes(entries: seq<Entry>, indexes: map<string, nat>, duplicates: set<string>)
    requires TracksNames(entries, indexes, duplicates)
    ensures forall name :: name in indexes ==> name != "" && CarriesAlone(entries, indexes[name], name)
    ensures forall i :: 0 <= i < |entries| && entries[i].name != "" && CarriesAlone(entries, i, entries[i].name) ==>
      entries[i].name in indexes
  {
    forall name | name in indexes
      ensures name != "" && CarriesAlone(entries, indexes[name], name)
    {
      assert NameTracked(entries, indexes, duplicates, name);
    }
    forall i | 0 <= i < |entries| && entries[i].name != "" && CarriesAlone(entries, i, entries[i].name)
      ensures entries[i].name in indexes
    {
      assert NameTracked(entries, indexes, duplicates, entries[i].name);
    }
  }

  lemma AloneInRange(entries: seq<Entry>, i: int, name: string)
    ensures CarriesAlone(entries, i, name) ==> 0 <= i < |entries| && Carried(entries, name)
  {
  }

  lemma NothingTracked()
    ensures TracksNames([], map[], {})
  {
  }

  /** uniqueManifestIndexesByName */
  method UniqueIndexesByName(entries: seq<Entry>) returns (indexes: map<string, nat>)
    ensures forall name :: name in indexes ==> name != "" && CarriesAlone(entries, indexes[name], name)
    ensures forall i :: 0 <= i < |entries| && entries[i].name != "" && CarriesAlone(entries, i, entries[i].name) ==>
      entries[i].name in indexes
  {
    hide CarriesAlone, TracksNames;
    NothingTracked();
    indexes := map[];
    var duplicates: set<string> := {};
    for k := 0 to |entries|
      invariant TracksNames(entries[..k], indexes, duplicates)
    {
      var name := entries[k].name;
      TrackOneMore(entries[..k], entries[k], indexes, duplicates);
      assert entries[..k + 1] == entries[..k] + [entries[k]];
      if name == "" || name in duplicates {
        continue;
      }
      if name in indexes {
        indexes := indexes - {name};
        duplicates := duplicates + {name};
        continue;
      }
      indexes := indexes[name := k];
    }
    assert entries[..|entries|] == entries;
    TrackedIndexes(entries, indexes, duplicates);
  }

  /** Being alone with a name in a list is being alone in its multiset. */
  lemma AloneIsNamed(entries: seq<Entry>, name: string, e: Entry)
    ensures Names(multiset(entries), name, e) <==> exists i :: CarriesAlone(entries, i, name) && entries[i] == e
  {
    if Names(multiset(entries), name, e) {
      assert e in entries;
      var i :| 0 <= i < |entries| && entries[i] == e;
      OthersDiffer(entries, i);
      forall j | 0 <= j < |entries| && j != i
        ensures entries[j].name != name
      {
        assert entries[j] in multiset(entries);
      }
      assert CarriesAlone(entries, i, name);
    } else if exists i :: CarriesAlone(entries, i, name) && entries[i] == e {
      var i :| CarriesAlone(entries, i, name) && entries[i] == e;
      OthersDiffer(entries, i);
    }
  }

  /** An entry occurs once exactly when no other position holds it. */
  lemma OthersDiffer(entries: seq<Entry>, i: nat)
    requires i < |entries|
    ensures multiset(entries)[entries[i]] == 1 <==> forall j :: 0 <= j < |entries| && j != i ==> entries[j] != entries[i]
  {
    var e := entries[i];
    var front, back := entries[..i], entries[i + 1..];
    assert entries == front + [e] + back;
    assert multiset(entries)[e] == multiset(front)[e] + 1 + multiset(back)[e];
    if e in front {
      var j :| 0 <= j < |front| && front[j] == e;
      assert entries[j] == e;
    } else if e in back {
      var j :| 0 <= j < |back| && back[j] == e;
      assert entries[i + 1 + j] == e;
    } else {
      forall j | 0 <= j < |entries| && j != i
        ensures entries[j] != e
      {
        assert j < i ==> front[j] == entries[j];
        assert j > i ==> back[j - i - 1] == entries[j];
      }
    }
  }

  ghost predicate IndexesAlone(entries: seq<Entry>, indexes: map<string, nat>) {
    && (forall name :: name in indexes ==> name != "" && CarriesAlone(entries, indexes[name], name))
    && (forall i :: 0 <= i < |entries| && entries[i].name != "" && CarriesAlone(entries, i, entries[i].name) ==>
          entries[i].name in indexes)
  }

  lemma IndexedNames(entries: seq<Entry>, indexes: map<string, nat>, name: string)
    requires IndexesAlone(entries, indexes)
    ensures name in indexes <==> name != "" && exists e :: Names(multiset(entries), name, e)
    ensures name in indexes ==> indexes[name] < |entries| && Names(multiset(entries), name, entries[indexes[name]])
    ensures forall e :: name in indexes && Names(multiset(entries), name, e) ==> e == entries[indexes[name]]
  {
    if name in indexes {
      AloneIsNamed(entries, name, entries[indexes[name]]);
    } else if name != "" && exists e :: Names(multiset(entries), name, e) {
      var e :| Names(multiset(entries), name, e);
      AloneIsNamed(entries, name, e);
    }
  }

  /** The change that two indexes give for a name they both hold. */
  ghost predicate IsFound(gone: seq<Entry>, come: seq<Entry>, goneByName: map<string, nat>, comeByName: map<string, nat>, c: Change) {
    && c.identity in goneByName && goneByName[c.identity] < |gone| && c.before == gone[goneByName[c.identity]]
    && c.identity in comeByName && comeByName[c.identity] < |come| && c.after == come[comeByName[c.identity]]
  }

  lemma FoundIsChange(gone: seq<Entry>, come: seq<Entry>, goneByName: map<string, nat>, comeByName: map<string, nat>, c: Change)
    requires IndexesAlone(gone, goneByName) && IndexesAlone(come, comeByName)
    ensures IsFound(gone, come, goneByName, comeByName, c) <==> IsChange(c, multiset(gone), multiset(come))
  {
    hide Names, IndexesAlone;
    IndexedNames(gone, goneByName, c.identity);
    IndexedNames(come, comeByName, c.identity);
  }

  lemma UsedArePaired(gone: seq<Entry>, come: seq<Entry>, goneByName: map<string, nat>, comeByName: map<string, nat>, i: nat)
    requires IndexesAlone(gone, goneByName) && IndexesAlone(come, comeByName) && i < |gone|
    ensures Paired(multiset(gone), multiset(come), gone[i].name)
       <==> gone[i].name in goneByName && gone[i].name in comeByName && goneByName[gone[i].name] == i
  {
    hide Names;
    IndexedNames(gone, goneByName, gone[i].name);
    IndexedNames(come, comeByName, gone[i].name);
  }

  ghost predicate DistinctIdentities(changed: seq<Change>) {
    forall i, j :: 0 <= i < j < |changed| ==> changed[i].identity != changed[j].identity
  }

  /** The position of a name that both indexes hold. */
  predicate IsUsed(entries: seq<Entry>, byName: map<string, nat>, otherByName: map<string, nat>, i: nat) {
    i < |entries| && entries[i].name in byName && entries[i].name in otherByName && byName[entries[i].name] == i
  }

  /** The loop over the names of one side, in whatever order the map yields them. */
  method PairByName(gone: seq<Entry>, come: seq<Entry>, goneByName: map<string, nat>, comeByName: map<string, nat>)
    returns (changed: seq<Change>, usedGone: set<nat>, usedCome: set<nat>)
    requires IndexesAlone(gone, goneByName) && IndexesAlone(come, comeByName)
    requires multiset(gone) !! multiset(come)
    ensures DistinctIdentities(changed)
    ensures forall c :: c in changed <==> IsFound(gone, come, goneByName, comeByName, c)
    ensures forall i: nat :: i in usedGone <==> IsUsed(gone, goneByName, comeByName, i)
    ensures forall i: nat :: i in usedCome <==> IsUsed(come, comeByName, goneByName, i)
  {
    changed, usedGone, usedCome := [], {}, {};
    var remaining := goneByName.Keys;
    while remaining != {}
      invariant remaining <= goneByName.Keys && DistinctIdentities(changed)
      invariant forall c :: c in changed <==> c.identity !in remaining && IsFound(gone, come, goneByName, comeByName, c)
      invariant forall i: nat :: i in usedGone <==> (IsUsed(gone, goneByName, comeByName, i) && gone[i].name !in remaining)
      invariant forall i: nat :: i in usedCome <==> (IsUsed(come, comeByName, goneByName, i) && come[i].name !in remaining)
      decreases |remaining|
    {
      var name :| name in remaining;
      remaining := remaining - {name};
      if name !in comeByName {
        continue;
      }
      var i, j := goneByName[name], comeByName[name];
      LeftoversDiffer(gone, come, i, j);
      changed := changed + [Change(name, gone[i], come[j])];
      usedGone, usedCome := usedGone + {i}, usedCome + {j};
    }
  }

  /** Entries left on both sides are never equal, so every pair is a change. */
  lemma LeftoversDiffer(gone: seq<Entry>, come: seq<Entry>, i: nat, j: nat)
    requires multiset(gone) !! multiset(come) && i < |gone| && j < |come|
    ensures gone[i] != come[j]
  {
    assert gone[i] in multiset(gone) && come[j] in multiset(come);
  }

  method FindChanges(gone: seq<Entry>, come: seq<Entry>)
    returns (changed: seq<Change>, usedGone: set<nat>, usedCome: set<nat>)
    requires multiset(gone) !! multiset(come)
    ensures DistinctIdentities(changed)
    ensures forall c :: c in changed <==> IsChange(c, multiset(gone), multiset(come))
    ensures forall i :: 0 <= i < |gone| ==> (i in usedGone <==> Paired(multiset(gone), multiset(come), gone[i].name))
    ensures forall i :: 0 <= i < |come| ==> (i in usedCome <==> Paired(multiset(come), multiset(gone), come[i].name))
  {
    var goneByName := UniqueIndexesByName(gone);
    var comeByName := UniqueIndexesByName(come);
    changed, usedGone, usedCome := PairByName(gone, come, goneByName, comeByName);
    hide CarriesAlone, IsFound, IsChange, Paired;
    forall c: Change
      ensures IsFound(gone, come, goneByName, comeByName, c) <==> IsChange(c, multiset(gone), multiset(come))
    {
      FoundIsChange(gone, come, goneByName, comeByName, c);
    }
    forall i | 0 <= i < |gone|
      ensures i in usedGone <==> Paired(multiset(gone), multiset(come), gone[i].name)
    {
      UsedArePaired(gone, come, goneByName, comeByName, i);
    }
    forall i | 0 <= i < |come|
      ensures i in usedCome <==> Paired(multiset(come), multiset(gone), come[i].name)
    {
      UsedArePaired(come, gone, comeByName, goneByName, i);
    }
  }

  /** The entries whose position no change has used. */
  method Keep(entries: seq<Entry>, used: set<nat>, ghost other: multiset<Entry>) returns (kept: seq<Entry>)
    requires IsSorted(entries)
    requires forall i :: 0 <= i < |entries| ==> (i in used <==> Paired(multiset(entries), other, entries[i].name))
    ensures Leftover(kept, multiset(entries), other)
  {
    hide IsSorted, Paired;
    NothingIsSorted();
    kept := [];
    for k := 0 to |entries|
      invariant IsSorted(kept) && forall e :: e in kept ==> e in entries[..k]
      invariant forall e :: multiset(kept)[e] == if Paired(multiset(entries), other, e.name) then 0 else multiset(entries[..k])[e]
    {
      assert entries[..k + 1] == entries[..k] + [entries[k]];
      if k !in used {
        AppendLater(kept, entries, k);
        kept := kept + [entries[k]];
      }
    }
    assert entries[..|entries|] == entries;
  }

  /** Identity first; the other keys never matter, because identities are distinct. */
  function CompareChanges(a: Change, b: Change): int {
    if a.identity != b.identity then CompareStrings(a.identity, b.identity)
    else CompareEntries(a.after, b.after)
  }

  method SortChanges(changed: seq<Change>) returns (sorted: seq<Change>)
    requires DistinctIdentities(changed)
    ensures ByIdentity(sorted) && forall c :: c in sorted <==> c in changed
  {
    sorted := [];
    for k := 0 to |changed|
      invariant ByIdentity(sorted) && forall c :: c in sorted <==> c in changed[..k]
    {
      assert changed[..k + 1] == changed[..k] + [changed[k]];
      sorted := InsertChange(sorted, changed[k]);
    }
    assert changed[..|changed|] == changed;
  }

  method InsertChange(sorted: seq<Change>, c: Change) returns (inserted: seq<Change>)
    requires ByIdentity(sorted) && forall d :: d in sorted ==> d.identity != c.identity
    ensures ByIdentity(inserted) && forall d :: d in inserted <==> d in sorted || d == c
  {
    hide CompareStrings;
    var i := 0;
    while i < |sorted| && CompareChanges(sorted[i], c) < 0
      invariant i <= |sorted|
      invariant forall k :: 0 <= k < i ==> CompareStrings(sorted[k].identity, c.identity) < 0
    {
      assert sorted[i] in sorted;
      i := i + 1;
    }
    assert i < |sorted| ==> sorted[i] in sorted;
    ChangeInsertion(sorted, i, c);
    inserted := sorted[..i] + [c] + sorted[i..];
  }

  lemma ChangeInsertion(sorted: seq<Change>, i: nat, c: Change)
    requires ByIdentity(sorted) && i <= |sorted|
    requires forall k :: 0 <= k < i ==> CompareStrings(sorted[k].identity, c.identity) < 0
    requires i < |sorted| ==> sorted[i].identity != c.identity && CompareStrings(sorted[i].identity, c.identity) >= 0
    ensures var inserted := sorted[..i] + [c] + sorted[i..];
            ByIdentity(inserted) && forall d :: d in inserted <==> d in sorted || d == c
  {
    hide CompareStrings;
    assert sorted == sorted[..i] + sorted[i..];
    forall k | i <= k < |sorted|
      ensures CompareStrings(c.identity, sorted[k].identity) < 0
    {
      CompareIsAntisymmetric(c.identity, sorted[i].identity);
      if i < k {
        CompareIsTransitive(c.identity, sorted[i].identity, sorted[k].identity);
      }
    }
  }

  method DiffRouteManifests(before: seq<Entry>, after: seq<Entry>) returns (d: Diff)
    ensures IsDiff(multiset(before), multiset(after), d)
  {
    hide IsSorted, Leftover, ByIdentity, IsChange, Paired;
    var sortedBefore := SortEntries(before);
    var sortedAfter := SortEntries(after);
    var gone := RemoveMatched(sortedBefore, sortedAfter);
    var come := RemoveMatched(sortedAfter, sortedBefore);
    var changed, usedGone, usedCome := FindChanges(gone, come);
    var added := Keep(come, usedCome, multiset(gone));
    var removed := Keep(gone, usedGone, multiset(come));
    changed := SortChanges(changed);
    d := Diff(added, removed, changed);
  }
}

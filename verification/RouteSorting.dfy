/** Sorting a route table: the containment order of each method, in that method's slots. */
module RouteSorting {
  import opened Patterns
  import opened Permutations
  import opened Specificity
  import opened Routes

  /** Which of the first n paths path a contains. */
  function TableRow(paths: seq<string>, a: nat, n: nat): (row: seq<bool>)
    requires a < |paths| && n <= |paths|
    ensures |row| == n
  {
    if n == 0 then [] else TableRow(paths, a, n - 1) + [Contains(paths[a], paths[n - 1])]
  }

  function TableRows(paths: seq<string>, n: nat): (rows: seq<seq<bool>>)
    requires n <= |paths|
    ensures |rows| == n && forall k :: 0 <= k < n ==> |rows[k]| == |paths|
  {
    if n == 0 then [] else TableRows(paths, n - 1) + [TableRow(paths, n - 1, |paths|)]
  }

  /** Which of the declared paths contain which. */
  function ContainmentTable(paths: seq<string>): (t: Table)
    ensures |t| == |paths|
  {
    TableRows(paths, |paths|)
  }

  lemma {:induction false} RowEntry(paths: seq<string>, a: nat, n: nat, b: nat)
    requires a < |paths| && b < n <= |paths|
    ensures TableRow(paths, a, n)[b] == Contains(paths[a], paths[b])
  {
    if b < n - 1 {
      RowEntry(paths, a, n - 1, b);
    }
  }

  lemma {:induction false} RowsEntry(paths: seq<string>, n: nat, a: nat)
    requires a < n <= |paths|
    ensures TableRows(paths, n)[a] == TableRow(paths, a, |paths|)
  {
    if a < n - 1 {
      RowsEntry(paths, n - 1, a);
    }
  }

  lemma TableEntry(paths: seq<string>, a: nat, b: nat)
    requires a < |paths| && b < |paths|
    ensures ContainmentTable(paths)[a][b] == Contains(paths[a], paths[b])
  {
    RowsEntry(paths, |paths|, a);
    RowEntry(paths, a, |paths|, b);
  }

  lemma ContainmentIsPreorder(paths: seq<string>)
    ensures Preorder(ContainmentTable(paths))
  {
    var t := ContainmentTable(paths);
    forall a | 0 <= a < |t|
      ensures t[a][a]
    {
      TableEntry(paths, a, a);
      ContainsReflexive(paths[a], IGNORE_TRAILING_SLASH);
    }
    forall a, b, c | 0 <= a < |t| && 0 <= b < |t| && 0 <= c < |t| && t[a][b] && t[b][c]
      ensures t[a][c]
    {
      TableEntry(paths, a, b);
      TableEntry(paths, b, c);
      TableEntry(paths, a, c);
      ContainsTransitive(paths[a], paths[b], paths[c], IGNORE_TRAILING_SLASH);
    }
  }

  /** The mounting order of routes that share a method. */
  function ContainmentOrder(paths: seq<string>): (order: seq<nat>)
    ensures IsPermutation(order, |paths|)
  {
    ContainmentIsPreorder(paths);
    OrderIsLinearExtension(ContainmentTable(paths));
    Order(ContainmentTable(paths))
  }

  // ---------------------------------------------------------------------
  // The topological sort of one method
  // ---------------------------------------------------------------------

  /** The indexes below limit that strictly contain narrow, ascending. */
  function Outgoing(t: Table, narrow: nat, limit: nat): seq<nat>
    requires narrow < |t| && limit <= |t|
  {
    if limit == 0 then []
    else if Strictly(t, limit - 1, narrow) then Outgoing(t, narrow, limit - 1) + [limit - 1]
    else Outgoing(t, narrow, limit - 1)
  }

  lemma OutgoingStep(t: Table, narrow: nat, limit: nat)
    requires narrow < |t| && limit < |t|
    ensures Outgoing(t, narrow, limit + 1)
         == Outgoing(t, narrow, limit) + if Strictly(t, limit, narrow) then [limit] else []
  {
  }

  lemma {:induction false} OutgoingMeaning(t: Table, narrow: nat, limit: nat)
    requires narrow < |t| && limit <= |t|
    ensures var out := Outgoing(t, narrow, limit);
            && InRange(out, limit) && Distinct(out)
            && forall b: nat :: b < |t| ==> (b in out <==> b < limit && Strictly(t, b, narrow))
  {
    if limit > 0 {
      OutgoingMeaning(t, narrow, limit - 1);
    }
  }

  function NarrowerBelow(t: Table, broad: nat, limit: nat): set<nat>
    requires broad < |t| && limit <= |t|
  {
    set n: nat | n < limit && Strictly(t, broad, n)
  }

  function NarrowerCount(t: Table, broad: nat, limit: nat): nat
    requires broad < |t| && limit <= |t|
  {
    |NarrowerBelow(t, broad, limit)|
  }

  lemma NarrowerBelowStep(t: Table, broad: nat, limit: nat)
    requires broad < |t| && limit < |t|
    ensures NarrowerCount(t, broad, limit + 1)
         == NarrowerCount(t, broad, limit) + if Strictly(t, broad, limit) then 1 else 0
  {
    var before, after := NarrowerBelow(t, broad, limit), NarrowerBelow(t, broad, limit + 1);
    assert forall n :: n in after <==> n in before || (n == limit && Strictly(t, broad, limit));
    hide *;
    if Strictly(t, broad, limit) {
      assert after == before + {limit};
    } else {
      assert after == before;
    }
  }

  lemma NarrowerStep(t: Table, done: seq<nat>, next: nat, broad: nat)
    requires broad < |t| && next < |t| && next !in done
    ensures |Narrower(t, done + [next], broad)|
         == |Narrower(t, done, broad)| - if Strictly(t, broad, next) then 1 else 0
  {
    var before, after := Narrower(t, done, broad), Narrower(t, done + [next], broad);
    if Strictly(t, broad, next) {
      assert before == after + {next};
    } else {
      assert after == before;
    }
  }

  method IsStrictlyNarrower(paths: seq<string>, ghost t: Table, broad: nat, narrow: nat) returns (edge: bool)
    requires t == ContainmentTable(paths) && broad < |t| && narrow < |t|
    ensures edge == Strictly(t, broad, narrow)
  {
    TableEntry(paths, broad, narrow);
    TableEntry(paths, narrow, broad);
    edge := broad != narrow && Contains(paths[broad], paths[narrow]) && !Contains(paths[narrow], paths[broad]);
  }

  method BuildGraph(paths: seq<string>, ghost t: Table) returns (outgoing: array<seq<nat>>, indegree: array<int>)
    requires t == ContainmentTable(paths)
    ensures fresh(outgoing) && fresh(indegree)
    ensures outgoing.Length == |t| && indegree.Length == |t|
    ensures forall m :: 0 <= m < |t| ==> outgoing[m] == Outgoing(t, m, |t|)
    ensures forall b :: 0 <= b < |t| ==> indegree[b] == NarrowerCount(t, b, |t|)
  {
    var n := |paths|;
    outgoing := new seq<nat>[n](_ => []);
    indegree := new int[n](_ => 0);
    for broad := 0 to n
      invariant forall m :: 0 <= m < n ==> outgoing[m] == Outgoing(t, m, broad)
      invariant forall b :: 0 <= b < broad ==> indegree[b] == NarrowerCount(t, b, n)
      invariant forall b :: broad <= b < n ==> indegree[b] == 0
    {
      AddRow(paths, t, broad, outgoing, indegree);
    }
  }

  /** The inner loop: broad against every other route. */
  method AddRow(paths: seq<string>, ghost t: Table, broad: nat, outgoing: array<seq<nat>>, indegree: array<int>)
    requires t == ContainmentTable(paths) && broad < |t|
    requires outgoing.Length == indegree.Length == |t| && outgoing as object != indegree
    requires indegree[broad] == 0
    requires forall m :: 0 <= m < |t| ==> outgoing[m] == Outgoing(t, m, broad)
    modifies outgoing, indegree
    ensures forall m :: 0 <= m < |t| ==> outgoing[m] == Outgoing(t, m, broad + 1)
    ensures forall b :: 0 <= b < |t| && b != broad ==> indegree[b] == old(indegree[b])
    ensures indegree[broad] == NarrowerCount(t, broad, |t|)
  {
    assert NarrowerBelow(t, broad, 0) == {};
    hide ContainmentTable, NarrowerCount, Outgoing, Strictly;
    for narrow := 0 to |paths|
      invariant forall m :: 0 <= m < narrow ==> outgoing[m] == Outgoing(t, m, broad + 1)
      invariant forall m :: narrow <= m < |t| ==> outgoing[m] == Outgoing(t, m, broad)
      invariant forall b :: 0 <= b < |t| && b != broad ==> indegree[b] == old(indegree[b])
      invariant indegree[broad] == NarrowerCount(t, broad, narrow)
    {
      AddPair(paths, t, broad, narrow, outgoing, indegree);
    }
  }

  /** An edge if the narrow route is strictly contained in the broad one. */
  method AddPair(paths: seq<string>, ghost t: Table, broad: nat, narrow: nat, outgoing: array<seq<nat>>, indegree: array<int>)
    requires t == ContainmentTable(paths) && broad < |t| && narrow < |t|
    requires outgoing.Length == indegree.Length == |t| && outgoing as object != indegree
    requires outgoing[narrow] == Outgoing(t, narrow, broad) && indegree[broad] == NarrowerCount(t, broad, narrow)
    modifies outgoing, indegree
    ensures outgoing[narrow] == Outgoing(t, narrow, broad + 1) && indegree[broad] == NarrowerCount(t, broad, narrow + 1)
    ensures forall m :: 0 <= m < |t| && m != narrow ==> outgoing[m] == old(outgoing[m])
    ensures forall b :: 0 <= b < |t| && b != broad ==> indegree[b] == old(indegree[b])
  {
    hide ContainmentTable, NarrowerCount, Outgoing, Strictly;
    NarrowerBelowStep(t, broad, narrow);
    OutgoingStep(t, narrow, broad);
    var edge := IsStrictlyNarrower(paths, t, broad, narrow);
    if edge {
      outgoing[narrow] := outgoing[narrow] + [broad];
      indegree[broad] := indegree[broad] + 1;
    }
  }

  method ReleaseDependents(ghost t: Table, ghost done: seq<nat>, next: nat, outgoing: array<seq<nat>>, indegree: array<int>)
    requires next < |t| && next !in done && outgoing.Length == |t| == indegree.Length
    requires outgoing[next] == Outgoing(t, next, |t|)
    requires forall b :: 0 <= b < |t| ==> indegree[b] == |Narrower(t, done, b)|
    modifies indegree
    ensures forall b :: 0 <= b < |t| ==> indegree[b] == |Narrower(t, done + [next], b)|
  {
    var dependents := outgoing[next];
    OutgoingMeaning(t, next, |t|);
    for j := 0 to |dependents|
      invariant forall b :: 0 <= b < |t| ==>
        indegree[b] == |Narrower(t, done, b)| - if b in dependents[..j] then 1 else 0
    {
      indegree[dependents[j]] := indegree[dependents[j]] - 1;
    }
    forall b | 0 <= b < |t|
      ensures indegree[b] == |Narrower(t, done + [next], b)|
    {
      assert dependents[..|dependents|] == dependents;
      NarrowerStep(t, done, next, b);
    }
  }

  lemma EligibleMeaning(t: Table, done: seq<nat>, i: nat)
    requires i < |t|
    ensures Eligible(t, done, i) <==> i !in done && |Narrower(t, done, i)| == 0
  {
    if |Narrower(t, done, i)| == 0 {
      assert forall n: nat :: n < |t| && Strictly(t, i, n) && n !in done ==> n in Narrower(t, done, i);
    }
  }

  /** stableContainmentOrder, with the graph held in arrays that change step by step. */
  method StableContainmentOrder(routes: seq<RouteDefinition>) returns (ordered: seq<RouteDefinition>)
    ensures ordered == Pick(routes, ContainmentOrder(PathsOf(Endpoints(routes))))
  {
    var paths := PathsOf(Endpoints(routes));
    ghost var t := ContainmentTable(paths);
    ContainmentIsPreorder(paths);
    OrderIsLinearExtension(t);
    var n := |routes|;
    if n < 2 {
      return routes;
    }
    var outgoing, indegree := BuildGraph(paths, t);
    ordered := EmitEligible(routes, t, outgoing, indegree);
  }

  method EmitEligible(routes: seq<RouteDefinition>, ghost t: Table, outgoing: array<seq<nat>>, indegree: array<int>)
    returns (ordered: seq<RouteDefinition>)
    requires |t| == |routes| == outgoing.Length == indegree.Length && outgoing as object != indegree
    requires forall m :: 0 <= m < |t| ==> outgoing[m] == Outgoing(t, m, |t|)
    requires forall b :: 0 <= b < |t| ==> indegree[b] == NarrowerCount(t, b, |t|)
    modifies indegree
    ensures InRange(Order(t), |routes|) && ordered == Pick(routes, Order(t))
  {
    var n := |routes|;
    var emitted := new bool[n](_ => false);
    ordered := [];
    ghost var done: seq<nat> := [];
    assert forall b :: 0 <= b < n ==> Narrower(t, done, b) == NarrowerBelow(t, b, n);
    while |ordered| < n
      invariant |done| <= n && InRange(done, n)
      invariant OrderFrom(t, done) == Order(t)
      invariant ordered == Pick(routes, done)
      invariant forall i :: 0 <= i < n ==> emitted[i] == (i in done)
      invariant forall b :: 0 <= b < n ==> indegree[b] == |Narrower(t, done, b)|
      decreases n - |ordered|
    {
      var next := FirstEligible(t, done, emitted, indegree);
      if next == -1 {
        ordered := AppendRemaining(routes, done, emitted, ordered);
        return;
      }
      emitted[next] := true;
      ordered := ordered + [routes[next]];
      ReleaseDependents(t, done, next, outgoing, indegree);
      done := done + [next];
    }
  }

  /** The fallback: what has not been emitted, in declaration order. */
  method AppendRemaining(routes: seq<RouteDefinition>, ghost done: seq<nat>, emitted: array<bool>, prefix: seq<RouteDefinition>)
    returns (ordered: seq<RouteDefinition>)
    requires emitted.Length == |routes| && InRange(done, |routes|) && prefix == Pick(routes, done)
    requires forall i :: 0 <= i < |routes| ==> emitted[i] == (i in done)
    ensures var all := done + Remaining(done, |routes|); InRange(all, |routes|) && ordered == Pick(routes, all)
  {
    ordered := prefix;
    ghost var left: seq<nat> := [];
    for index := 0 to |routes|
      invariant left == Remaining(done, index) && InRange(left, |routes|)
      invariant ordered == Pick(routes, done + left)
    {
      if !emitted[index] {
        ordered := ordered + [routes[index]];
        left := left + [index];
      }
    }
  }

  /** The scan for the earliest declaration that may be mounted now, -1 when there is none. */
  method FirstEligible(ghost t: Table, ghost done: seq<nat>, emitted: array<bool>, indegree: array<int>) returns (next: int)
    requires emitted.Length == indegree.Length == |t|
    requires forall i :: 0 <= i < |t| ==> emitted[i] == (i in done)
    requires forall b :: 0 <= b < |t| ==> indegree[b] == |Narrower(t, done, b)|
    ensures next == if Next(t, done) < |t| then Next(t, done) else -1
  {
    for index := 0 to emitted.Length
      invariant NextFrom(t, done, index) == Next(t, done)
    {
      EligibleMeaning(t, done, index);
      if !emitted[index] && indegree[index] == 0 {
        return index;
      }
    }
    next := -1;
  }
}

/** The checks run over a whole table before it is sealed in strict mode. */
module RouteValidation {
  import opened Paths
  import opened PathConflicts
  import opened RouteLints
  import opened Wrappers
  import opened Routes
  import opened NamedRoutes
  import opened Registration

  datatype RouteError =
    | PathError(existing: Endpoint, incoming: Endpoint, conflict: Conflict)
    | LintError(parameter: Endpoint, sibling: Endpoint)
    | NameError(name: string, existing: Endpoint, incoming: Endpoint)

  datatype Options = Options(pathMode: PathConflictMode, enforceCatchAll: bool, lints: bool, namePolicy: NamePolicy)

  /** The options with which an adapter validates its own routes. */
  function OptionsOf(cfg: Config): Options {
    Options(cfg.pathMode, cfg.enforceCatchAll, cfg.enforceLints, cfg.namePolicy)
  }

  /** A declared route and its effective public name. */
  datatype Carrier = Carrier(name: string, endpoint: Endpoint)

  // ---------------------------------------------------------------------
  // Path errors
  // ---------------------------------------------------------------------

  function LintErrors(parameter: Endpoint, sibling: Endpoint): seq<RouteError> {
    if IsLinted(parameter.path, sibling.path) then [LintError(parameter, sibling)] else []
  }

  function ConflictErrors(left: Endpoint, right: Endpoint, o: Options): seq<RouteError> {
    var conflict := PathConflict(left.path, right.path, o.pathMode, o.enforceCatchAll);
    if conflict.Some? then [PathError(left, right, conflict.value)] else []
  }

  function PairErrors(left: Endpoint, right: Endpoint, o: Options): seq<RouteError> {
    if left.verb != right.verb then []
    else if left.path == right.path then [PathError(left, right, Conflict(DuplicateRoute, -1, "", ""))]
    else
      ConflictErrors(left, right, o) + if o.lints then LintErrors(left, right) + LintErrors(right, left) else []
  }

  /** The errors of route i against the routes behind it, up to j. */
  function RowErrors(table: seq<Endpoint>, i: nat, j: nat, o: Options): seq<RouteError>
    requires i < j <= |table|
  {
    if j == i + 1 then [] else RowErrors(table, i, j - 1, o) + PairErrors(table[i], table[j - 1], o)
  }

  function PathErrors(table: seq<Endpoint>, n: nat, o: Options): seq<RouteError>
    requires n <= |table|
  {
    if n == 0 then [] else PathErrors(table, n - 1, o) + RowErrors(table, n - 1, |table|, o)
  }

  lemma {:induction false} NoRowErrors(table: seq<Endpoint>, i: nat, j: nat, o: Options)
    requires i < j <= |table|
    ensures RowErrors(table, i, j, o) == [] <==> forall k :: i < k < j ==> PairErrors(table[i], table[k], o) == []
  {
    hide PairErrors;
    if j > i + 1 {
      NoRowErrors(table, i, j - 1, o);
    }
  }

  ghost predicate RowClear(table: seq<Endpoint>, i: nat, o: Options)
    requires i < |table|
  {
    forall k :: i < k < |table| ==> PairErrors(table[i], table[k], o) == []
  }

  lemma {:induction false} NoPathErrors(table: seq<Endpoint>, n: nat, o: Options)
    requires n <= |table|
    ensures PathErrors(table, n, o) == [] <==> forall i: nat :: i < n ==> RowClear(table, i, o)
  {
    hide RowErrors, RowClear;
    if n > 0 {
      NoPathErrors(table, n - 1, o);
      ClearRow(table, n - 1, o);
    }
  }

  lemma ClearRow(table: seq<Endpoint>, i: nat, o: Options)
    requires i < |table|
    ensures RowErrors(table, i, |table|, o) == [] <==> RowClear(table, i, o)
  {
    hide PairErrors, RowErrors;
    NoRowErrors(table, i, |table|, o);
  }

  /** An error that two routes of a table, the left one declared first, give rise to. */
  ghost predicate IsPairError(error: RouteError, left: Endpoint, right: Endpoint, o: Options) {
    && left.verb == right.verb
    && match error
       case PathError(existing, incoming, conflict) =>
         existing == left && incoming == right
         && if left.path == right.path then conflict == Conflict(DuplicateRoute, -1, "", "")
            else PathConflict(left.path, right.path, o.pathMode, o.enforceCatchAll) == Some(conflict)
       case LintError(parameter, sibling) =>
         o.lints && left.path != right.path && IsLinted(parameter.path, sibling.path)
         && ((parameter == left && sibling == right) || (parameter == right && sibling == left))
       case NameError(_, _, _) => false
  }

  lemma PairErrorsMeaning(left: Endpoint, right: Endpoint, o: Options, error: RouteError)
    ensures error in PairErrors(left, right, o) <==> IsPairError(error, left, right, o)
  {
    hide PathConflict, IsLinted;
  }

  lemma {:induction false} RowErrorsMeaning(table: seq<Endpoint>, i: nat, j: nat, o: Options, error: RouteError)
    requires i < j <= |table|
    ensures error in RowErrors(table, i, j, o) <==> exists k :: i < k < j && IsPairError(error, table[i], table[k], o)
  {
    hide PairErrors, IsPairError;
    if j > i + 1 {
      RowErrorsMeaning(table, i, j - 1, o, error);
      PairErrorsMeaning(table[i], table[j - 1], o, error);
    }
  }

  /** The path errors of a table are those of its pairs: a duplicate, the conflict that
      detection reports, and a lint in either direction. */
  lemma {:induction false} PathErrorsMeaning(table: seq<Endpoint>, n: nat, o: Options, error: RouteError)
    requires n <= |table|
    ensures error in PathErrors(table, n, o)
       <==> exists i, k :: 0 <= i < n && i < k < |table| && IsPairError(error, table[i], table[k], o)
  {
    hide RowErrors, IsPairError;
    if n > 0 {
      PathErrorsMeaning(table, n - 1, o, error);
      RowErrorsMeaning(table, n - 1, |table|, o, error);
    }
  }

  /** No bare id parameter stands beside a static sibling of its method. */
  ghost predicate LintFree(table: seq<Endpoint>) {
    forall i, j :: 0 <= i < |table| && 0 <= j < |table| && table[i].verb == table[j].verb ==>
      !IsLinted(table[i].path, table[j].path)
  }

  lemma NoPairErrors(left: Endpoint, right: Endpoint, o: Options)
    ensures PairErrors(left, right, o) == [] <==>
      (left.verb == right.verb ==>
        && left.path != right.path
        && PathConflict(left.path, right.path, o.pathMode, o.enforceCatchAll).None?
        && (o.lints ==> !IsLinted(left.path, right.path) && !IsLinted(right.path, left.path)))
  {
    hide PathConflict, IsLinted;
  }

  lemma NotLintedByItself(path: string)
    ensures !IsLinted(path, path)
  {
    hide IsBareId, SplitPathSegments;
    var p := SplitPathSegments(path);
    forall i | 0 <= i < |p|
      ensures !FlagsAt(p, p, i)
    {
      if FlagsAt(p, p, i) {
        FlaggedDiffers(p, p, i);
      }
    }
  }

  /** Validation finds no path error and no lint exactly in the tables the adapter itself
      would accept and, where lints are enforced, that no bare id spoils. */
  lemma PathValidationMeansConflictFree(table: seq<Endpoint>, cfg: Config)
    ensures PathErrors(table, |table|, OptionsOf(cfg)) == []
       <==> ConflictFree(table, cfg) && (cfg.enforceLints ==> LintFree(table))
  {
    var o := OptionsOf(cfg);
    NoPathErrors(table, |table|, o);
    hide PathErrors, PairErrors, PathConflict, IsLinted;
    forall i, k | 0 <= i < k < |table|
      ensures PairErrors(table[i], table[k], o) == [] <==> PairFits(table[i], table[k], cfg)
    {
      NoPairErrors(table[i], table[k], o);
    }
    FitsPairwise(table, cfg);
    if forall i, k :: 0 <= i < k < |table| ==> PairFits(table[i], table[k], cfg) {
    } else {
      var i, k :| 0 <= i < k < |table| && !PairFits(table[i], table[k], cfg);
      assert !RowClear(table, i, o);
    }
  }

  predicate PairFits(left: Endpoint, right: Endpoint, cfg: Config) {
    left.verb == right.verb ==>
      && left.path != right.path
      && PathConflict(left.path, right.path, cfg.pathMode, cfg.enforceCatchAll).None?
      && (cfg.enforceLints ==> !IsLinted(left.path, right.path) && !IsLinted(right.path, left.path))
  }

  lemma FitsPairwise(table: seq<Endpoint>, cfg: Config)
    ensures (forall i, k :: 0 <= i < k < |table| ==> PairFits(table[i], table[k], cfg))
       <==> ConflictFree(table, cfg) && (cfg.enforceLints ==> LintFree(table))
  {
    hide PathConflict, IsLinted;
    forall i | 0 <= i < |table|
      ensures !IsLinted(table[i].path, table[i].path)
    {
      NotLintedByItself(table[i].path);
    }
    if forall i, k :: 0 <= i < k < |table| ==> PairFits(table[i], table[k], cfg) {
      forall i, j | 0 <= i < |table| && 0 <= j < |table| && table[i].verb == table[j].verb && cfg.enforceLints
        ensures !IsLinted(table[i].path, table[j].path)
      {
        assert i < j ==> PairFits(table[i], table[j], cfg);
        assert j < i ==> PairFits(table[j], table[i], cfg);
      }
    }
  }

  // ---------------------------------------------------------------------
  // Name errors
  // ---------------------------------------------------------------------

  function FirstCarrier(carriers: seq<Carrier>, name: string): (first: Option<nat>)
    ensures first.Some? ==> first.value < |carriers| && carriers[first.value].name == name
    ensures forall k :: 0 <= k < (if first.Some? then first.value else |carriers|) ==> carriers[k].name != name
  {
    if carriers == [] then None
    else if carriers[0].name == name then Some(0)
    else
      match FirstCarrier(carriers[1..], name)
      case None => None
      case Some(k) => Some(k + 1)
  }

  /** A route clashes with the first carrier of its public name when their paths differ. */
  function NameErrorAt(carriers: seq<Carrier>, k: nat): seq<RouteError>
    requires k < |carriers|
  {
    var c := carriers[k];
    var first := FirstCarrier(carriers[..k], c.name);
    if c.name == "" || first.None? || carriers[first.value].endpoint.path == c.endpoint.path then []
    else [NameError(c.name, carriers[first.value].endpoint, c.endpoint)]
  }

  function NameErrors(carriers: seq<Carrier>, n: nat): seq<RouteError>
    requires n <= |carriers|
  {
    if n == 0 then [] else NameErrors(carriers, n - 1) + NameErrorAt(carriers, n - 1)
  }

  ghost predicate NamesSharePaths(carriers: seq<Carrier>, n: nat)
    requires n <= |carriers|
  {
    forall i, j :: 0 <= i < j < n && carriers[i].name == carriers[j].name != "" ==>
      carriers[i].endpoint.path == carriers[j].endpoint.path
  }

  lemma NoNameErrorAt(carriers: seq<Carrier>, k: nat)
    requires k < |carriers| && NamesSharePaths(carriers, k)
    ensures NameErrorAt(carriers, k) == [] <==>
      forall i :: 0 <= i < k && carriers[i].name == carriers[k].name != "" ==>
        carriers[i].endpoint.path == carriers[k].endpoint.path
  {
    var name := carriers[k].name;
    var first := FirstCarrier(carriers[..k], name);
    forall i | 0 <= i < k && carriers[i].name == name
      ensures first.Some? && (name != "" ==> carriers[i].endpoint.path == carriers[first.value].endpoint.path)
    {
      assert carriers[..k][i].name == name;
    }
  }

  /** No name error is found exactly when every public name stands for one path. */
  lemma {:induction false} NoNameErrors(carriers: seq<Carrier>, n: nat)
    requires n <= |carriers|
    ensures NameErrors(carriers, n) == [] <==> NamesSharePaths(carriers, n)
  {
    hide NameErrorAt;
    if n > 0 {
      NoNameErrors(carriers, n - 1);
      if NamesSharePaths(carriers, n - 1) {
        NoNameErrorAt(carriers, n - 1);
      }
    }
  }

  /** A name error is about a route and the first route of its public name, on another path. */
  ghost predicate IsNameError(error: RouteError, carriers: seq<Carrier>, i: nat, k: nat)
    requires i < k < |carriers|
  {
    && error == NameError(carriers[k].name, carriers[i].endpoint, carriers[k].endpoint)
    && carriers[k].name != "" && carriers[i].name == carriers[k].name
    && (forall m :: 0 <= m < i ==> carriers[m].name != carriers[k].name)
    && carriers[i].endpoint.path != carriers[k].endpoint.path
  }

  lemma NameErrorAtMeaning(carriers: seq<Carrier>, k: nat, error: RouteError)
    requires k < |carriers|
    ensures error in NameErrorAt(carriers, k) <==> exists i :: 0 <= i < k && IsNameError(error, carriers, i, k)
  {
    var first := FirstCarrier(carriers[..k], carriers[k].name);
    if i :| 0 <= i < k && IsNameError(error, carriers, i, k) {
      assert carriers[..k][i].name == carriers[k].name;
      assert first == Some(i);
    }
    if first.Some? {
      assert carriers[..k][first.value] == carriers[first.value];
      assert error in NameErrorAt(carriers, k) ==> IsNameError(error, carriers, first.value, k);
    }
  }

  /** The name errors of a table are exactly those. */
  lemma {:induction false} NameErrorsMeaning(carriers: seq<Carrier>, n: nat, error: RouteError)
    requires n <= |carriers|
    ensures error in NameErrors(carriers, n)
       <==> exists i, k :: 0 <= i < k < n && IsNameError(error, carriers, i, k)
  {
    hide NameErrorAt, IsNameError;
    if n > 0 {
      NameErrorsMeaning(carriers, n - 1, error);
      NameErrorAtMeaning(carriers, n - 1, error);
    }
  }

  /** The carriers of a named table, in declaration order. */
  function CarriersOf(n: Names): (carriers: seq<Carrier>)
    requires n.Labelled()
    ensures |carriers| == |n.routes|
    ensures forall k :: 0 <= k < |carriers| ==>
      carriers[k] == Carrier(n.PublicName(n.routes[k]), n.routes[k].AsEndpoint())
  {
    seq(|n.routes|, k requires 0 <= k < |n.routes| => Carrier(n.PublicName(n.routes[k]), n.routes[k].AsEndpoint()))
  }

  /** A well-named table passes name validation. */
  lemma WellNamedPassesNameValidation(n: Names)
    requires WellNamed(n)
    ensures NameErrors(CarriersOf(n), |CarriersOf(n)|) == []
  {
    var carriers := CarriersOf(n);
    forall i, j | 0 <= i < j < |carriers| && carriers[i].name == carriers[j].name != ""
      ensures carriers[i].endpoint.path == carriers[j].endpoint.path
    {
      assert n.bindings[n.PublicName(n.routes[i])].path == n.routes[i].path;
      assert n.bindings[n.PublicName(n.routes[j])].path == n.routes[j].path;
    }
    NoNameErrors(carriers, |carriers|);
  }

  /** Routers that name under the skip and error policies pass name validation after every
      registration run, late routes included. */
  lemma NamedRunsPassNameValidation(cfg: Config, ops: seq<Op>)
    requires cfg.namePolicy != Replace
    ensures var carriers := CarriersOf(Registration.Run(cfg, ops).names); NameErrors(carriers, |carriers|) == []
  {
    RunsKeepNames(cfg, ops);
    WellNamedPassesNameValidation(Registration.Run(cfg, ops).names);
  }

  /** A table built through httprouter passes the path validation of that adapter. */
  lemma HttpRouterRunsPassPathValidation(cfg: Config, ops: seq<Op>)
    requires cfg.adapter == HttpRouter && cfg.pathMode == Strict && cfg.enforceCatchAll && !cfg.enforceLints
    ensures var table := Registration.Run(cfg, ops).Declared(); PathErrors(table, |table|, OptionsOf(cfg)) == []
  {
    RunsKeepConflictFree(cfg, ops);
    PathValidationMeansConflictFree(Registration.Run(cfg, ops).Declared(), cfg);
  }

  // ---------------------------------------------------------------------
  // Pending late declarations
  // ---------------------------------------------------------------------

  function LateEndpoint(l: LateRoute): Endpoint {
    Endpoint(l.verb, l.path)
  }

  function LateEndpoints(late: seq<LateRoute>): (endpoints: seq<Endpoint>)
    ensures |endpoints| == |late|
    ensures forall k :: 0 <= k < |late| ==> endpoints[k] == LateEndpoint(late[k])
  {
    seq(|late|, k requires 0 <= k < |late| => LateEndpoint(late[k]))
  }

  function LateCarriers(late: seq<LateRoute>): (carriers: seq<Carrier>)
    ensures |carriers| == |late|
    ensures forall k :: 0 <= k < |late| ==>
      carriers[k] == Carrier(Label(late[k].name, "", late[k].mode).EffectivePublicName(), LateEndpoint(late[k]))
  {
    seq(|late|, k requires 0 <= k < |late| =>
      Carrier(Label(late[k].name, "", late[k].mode).EffectivePublicName(), LateEndpoint(late[k])))
  }

  /** What collectRoutesForValidation puts together: the declared routes, then the late ones
      that have not joined yet. */
  function CollectedTable(p: Plan): (table: seq<Endpoint>)
    ensures |table| == |p.names.routes| + |p.late|
  {
    p.Declared() + LateEndpoints(p.late)
  }

  function CollectedCarriers(p: Plan): (carriers: seq<Carrier>)
    requires p.names.Labelled()
    ensures |carriers| == |p.names.routes| + |p.late|
  {
    CarriersOf(p.names) + LateCarriers(p.late)
  }

  /** ValidateRoutes finds nothing; under the error policy every refused naming is an error
      too. */
  ghost predicate PassesValidation(p: Plan, o: Options)
    requires p.names.Labelled()
  {
    && PathErrors(CollectedTable(p), |CollectedTable(p)|, o) == []
    && (o.namePolicy == Error ==>
          NameErrors(CollectedCarriers(p), |CollectedCarriers(p)|) == [] && p.names.conflicts == {})
  }

  /** Every late declaration would be admitted after the ones before it. */
  ghost predicate AdmitsInTurn(table: seq<Endpoint>, late: seq<LateRoute>, cfg: Config) {
    forall i :: 0 <= i < |late| ==>
      RouteConflict(table + LateEndpoints(late[..i]), late[i].verb, late[i].path, cfg).None?
  }

  lemma {:induction false} AdmittedInTurn(table: seq<Endpoint>, late: seq<LateRoute>, cfg: Config)
    requires ConflictFree(table, cfg)
    ensures ConflictFree(table + LateEndpoints(late), cfg) <==> AdmitsInTurn(table, late, cfg)
    decreases |late|
  {
    hide PathConflict, RouteConflict, ConflictFree;
    if late == [] {
      assert table + LateEndpoints(late) == table;
    } else {
      var last := |late| - 1;
      AdmittedInTurn(table, late[..last], cfg);
      LastAdmitted(table, late, cfg);
      assert table + LateEndpoints(late) == table + LateEndpoints(late[..last]) + [LateEndpoint(late[last])];
      AdmittedExactly(table + LateEndpoints(late[..last]), LateEndpoint(late[last]), cfg);
    }
  }

  lemma LastAdmitted(table: seq<Endpoint>, late: seq<LateRoute>, cfg: Config)
    requires late != []
    ensures var last := |late| - 1;
      AdmitsInTurn(table, late, cfg) <==>
        AdmitsInTurn(table, late[..last], cfg)
        && RouteConflict(table + LateEndpoints(late[..last]), late[last].verb, late[last].path, cfg).None?
  {
    hide RouteConflict;
    var last := |late| - 1;
    assert forall i :: 0 <= i < last ==> late[..last][..i] == late[..i];
  }

  lemma AdmittedExactly(table: seq<Endpoint>, e: Endpoint, cfg: Config)
    ensures ConflictFree(table + [e], cfg)
       <==> ConflictFree(table, cfg) && RouteConflict(table, e.verb, e.path, cfg).None?
  {
    hide PathConflict;
    var more := table + [e];
    if ConflictFree(more, cfg) {
      assert forall i, j :: 0 <= i < j < |table| ==> more[i] == table[i] && more[j] == table[j];
      assert forall i :: 0 <= i < |table| ==> more[i] == table[i] && more[|table|] == e;
    } else if ConflictFree(table, cfg) && RouteConflict(table, e.verb, e.path, cfg).None? {
      AcceptedRouteKeepsConflictFree(table, e, cfg);
    }
  }

  /** Validation passes exactly if what was declared and what is still pending is free of
      conflicts and lints together and, under the error policy, every public name among them
      stands for one path and no refused naming is left standing. */
  lemma ValidationMeaning(p: Plan, cfg: Config)
    requires p.names.Labelled()
    ensures PassesValidation(p, OptionsOf(cfg)) <==>
      && ConflictFree(CollectedTable(p), cfg) && (cfg.enforceLints ==> LintFree(CollectedTable(p)))
      && (cfg.namePolicy == Error ==>
            NamesSharePaths(CollectedCarriers(p), |CollectedCarriers(p)|) && p.names.conflicts == {})
  {
    hide PathErrors, NameErrors, ConflictFree, LintFree, NamesSharePaths, CollectedTable, CollectedCarriers;
    PathValidationMeansConflictFree(CollectedTable(p), cfg);
    NoNameErrors(CollectedCarriers(p), |CollectedCarriers(p)|);
  }

  /** An httprouter passes its own validation after a run exactly if every pending late
      declaration would be admitted in its turn and, under the error policy, every public
      name declared or pending stands for one path and no refused naming is left standing. */
  lemma HttpRouterValidationExactly(cfg: Config, ops: seq<Op>)
    requires cfg.adapter == HttpRouter && cfg.pathMode == Strict && cfg.enforceCatchAll && !cfg.enforceLints
    ensures var p := Registration.Run(cfg, ops);
      PassesValidation(p, OptionsOf(cfg)) <==>
        && AdmitsInTurn(p.Declared(), p.late, cfg)
        && (cfg.namePolicy == Error ==>
              NamesSharePaths(CollectedCarriers(p), |CollectedCarriers(p)|) && p.names.conflicts == {})
  {
    hide Registration.Run, ConflictFree, AdmitsInTurn, NamesSharePaths, CollectedCarriers;
    var p := Registration.Run(cfg, ops);
    RunsKeepConflictFree(cfg, ops);
    ValidationMeaning(p, cfg);
    AdmittedInTurn(p.Declared(), p.late, cfg);
  }

  /** With nothing pending only a refused naming under the error policy can fail it. */
  lemma HttpRouterValidationMeansNoRefusedName(cfg: Config, ops: seq<Op>)
    requires cfg.adapter == HttpRouter && cfg.pathMode == Strict && cfg.enforceCatchAll && !cfg.enforceLints
    requires Registration.Run(cfg, ops).late == []
    ensures PassesValidation(Registration.Run(cfg, ops), OptionsOf(cfg))
       <==> (cfg.namePolicy == Error ==> Registration.Run(cfg, ops).names.conflicts == {})
  {
    var p := Registration.Run(cfg, ops);
    hide Registration.Run, NamesSharePaths;
    HttpRouterValidationExactly(cfg, ops);
    assert CollectedCarriers(p) == CarriersOf(p.names);
    if cfg.namePolicy == Error {
      NamedRunsPassNameValidation(cfg, ops);
      NoNameErrors(CarriersOf(p.names), |CarriersOf(p.names)|);
    }
  }

  /** The route objects that joining makes for late declarations. */
  predicate MadeFor(objects: seq<RouteDefinition?>, late: seq<LateRoute>, routes: seq<RouteDefinition>) {
    && |objects| == |late|
    && (forall i :: 0 <= i < |objects| ==>
          objects[i] != null && objects[i] !in routes && objects[i].AsEndpoint() == LateEndpoint(late[i]))
    && (forall i, j :: 0 <= i < j < |objects| ==> objects[i] != objects[j])
  }

  /** What validation says of the paths is what initialization will do: on an httprouter that
      panics over conflicts the late declarations join without a panic exactly if validation
      reports no path error. */
  lemma ValidationForetellsJoining(cfg: Config, ops: seq<Op>, objects: seq<RouteDefinition?>)
    requires cfg.adapter == HttpRouter && cfg.pathMode == Strict && cfg.enforceCatchAll && !cfg.enforceLints
    requires cfg.conflictPolicy == Panic
    requires Registration.Run(cfg, ops).state == Collecting
    requires MadeFor(objects, Registration.Run(cfg, ops).late, Registration.Run(cfg, ops).names.routes)
    ensures var p := Registration.Run(cfg, ops);
      JoinAll(p, cfg, p.late, objects).1 <==> PathErrors(CollectedTable(p), |CollectedTable(p)|, OptionsOf(cfg)) == []
  {
    var p := Registration.Run(cfg, ops);
    hide Registration.Run, ConflictFree, PathErrors, AdmitsInTurn, JoinAll;
    RunsKeepConflictFree(cfg, ops);
    AdmittedInTurn(p.Declared(), p.late, cfg);
    PathValidationMeansConflictFree(CollectedTable(p), cfg);
    JoinsWhenAdmitted(p, cfg, p.late, objects);
  }

  /** All late declarations joined, each as the object made for it. */
  ghost predicate AllJoined(p: Plan, q: Plan, late: seq<LateRoute>, objects: seq<RouteDefinition?>) {
    && q.state == Collecting && q.names.Labelled() && q.Declared() == p.Declared() + LateEndpoints(late)
    && forall r :: r in q.names.routes ==> r in p.names.routes || r in objects
  }

  lemma {:induction false} JoinsWhenAdmitted(p: Plan, cfg: Config, late: seq<LateRoute>, objects: seq<RouteDefinition?>)
    requires p.names.Labelled() && p.state == Collecting && cfg.conflictPolicy == Panic && !cfg.MountsConflicts()
    requires MadeFor(objects, late, p.names.routes)
    ensures var (q, ok) := JoinAll(p, cfg, late, objects);
      (ok <==> AdmitsInTurn(p.Declared(), late, cfg)) && (ok ==> AllJoined(p, q, late, objects))
    decreases |late|
  {
    hide RouteConflict, AdmitsInTurn, RegisterLate, Admission, AllJoined;
    if late == [] {
      NoneToAdmit(p.Declared(), cfg);
      NoneToJoin(p);
    } else {
      var last := |late| - 1;
      JoinsWhenAdmitted(p, cfg, late[..last], objects[..last]);
      LastAdmitted(p.Declared(), late, cfg);
      var (q, ok) := JoinAll(p, cfg, late[..last], objects[..last]);
      if ok {
        LastJoins(p, q, cfg, late, objects);
      }
    }
  }

  lemma NoneToJoin(p: Plan)
    requires p.names.Labelled() && p.state == Collecting
    ensures AllJoined(p, p, [], [])
  {
    assert p.Declared() + LateEndpoints([]) == p.Declared();
  }

  lemma LastJoins(p: Plan, q: Plan, cfg: Config, late: seq<LateRoute>, objects: seq<RouteDefinition?>)
    requires late != [] && MadeFor(objects, late, p.names.routes)
    requires cfg.conflictPolicy == Panic && !cfg.MountsConflicts()
    requires var last := |late| - 1; AllJoined(p, q, late[..last], objects[..last])
    ensures var last := |late| - 1; var admission := Admission(q, cfg, late[last].verb, late[last].path);
      && objects[last] !in q.names.routes && admission != Skipped
      && (admission == Added <==>
            RouteConflict(p.Declared() + LateEndpoints(late[..last]), late[last].verb, late[last].path, cfg).None?)
      && (admission == Added ==> AllJoined(p, RegisterLate(q, cfg, late[last], objects[last]).0, late, objects))
  {
    hide RouteConflict, RegisterLate;
    var last := |late| - 1;
    if Admission(q, cfg, late[last].verb, late[last].path) == Added {
      LateJoins(q, cfg, late[last], objects[last]);
      OneMoreJoined(p, q, RegisterLate(q, cfg, late[last], objects[last]).0, late, objects);
      hide AllJoined;
    }
  }

  lemma OneMoreJoined(p: Plan, q: Plan, after: Plan, late: seq<LateRoute>, objects: seq<RouteDefinition?>)
    requires late != [] && |objects| == |late| && objects[|late| - 1] != null
    requires AllJoined(p, q, late[..|late| - 1], objects[..|late| - 1])
    requires after.state == Collecting && after.names.Labelled()
    requires after.names.routes == q.names.routes + [objects[|late| - 1]]
    requires after.Declared() == q.Declared() + [LateEndpoint(late[|late| - 1])]
    ensures AllJoined(p, after, late, objects)
  {
    var last := |late| - 1;
    assert objects == objects[..last] + [objects[last]];
    assert p.Declared() + LateEndpoints(late) == p.Declared() + LateEndpoints(late[..last]) + [LateEndpoint(late[last])];
  }

  /** Without the panic policy no late declaration panics: those that conflict are skipped, or
      mounted by Fiber under log-and-continue, and the others still join. */
  lemma {:induction false} LateNeverPanics(p: Plan, cfg: Config, late: seq<LateRoute>, objects: seq<RouteDefinition?>)
    requires p.names.Labelled() && p.state == Collecting && cfg.conflictPolicy != Panic
    requires MadeFor(objects, late, p.names.routes)
    ensures var (q, ok) := JoinAll(p, cfg, late, objects); ok && JoinedSome(p, q, cfg, objects)
    decreases |late|
  {
    hide JoinedSome, Admission, RegisterLate;
    if late == [] {
      JoinedNone(p, cfg);
    } else {
      var last := |late| - 1;
      LateNeverPanics(p, cfg, late[..last], objects[..last]);
      var q := JoinAll(p, cfg, late[..last], objects[..last]).0;
      JoinsOrSkips(p, q, cfg, late, objects);
    }
  }

  /** Still collecting, with some of the objects declared besides, or all of them where
      conflicts are mounted. */
  ghost predicate JoinedSome(p: Plan, q: Plan, cfg: Config, objects: seq<RouteDefinition?>) {
    && q.state == Collecting && q.names.Labelled()
    && (forall r :: r in q.names.routes ==> r in p.names.routes || r in objects)
    && (cfg.conflictPolicy == LogAndContinue && cfg.adapter == Fiber ==> forall r :: r in objects ==> r in q.names.routes)
  }

  lemma JoinedNone(p: Plan, cfg: Config)
    requires p.names.Labelled() && p.state == Collecting
    ensures JoinedSome(p, p, cfg, [])
  {
  }

  lemma JoinsOrSkips(p: Plan, q: Plan, cfg: Config, late: seq<LateRoute>, objects: seq<RouteDefinition?>)
    requires late != [] && cfg.conflictPolicy != Panic && MadeFor(objects, late, p.names.routes)
    requires var last := |late| - 1; JoinedSome(p, q, cfg, objects[..last])
    ensures var last := |late| - 1; var admission := Admission(q, cfg, late[last].verb, late[last].path);
      && objects[last] !in q.names.routes && admission != Panicked
      && (admission == Skipped ==> JoinedSome(p, q, cfg, objects))
      && (admission == Added ==> JoinedSome(p, RegisterLate(q, cfg, late[last], objects[last]).0, cfg, objects))
  {
    hide RouteConflict, RegisterLate;
    var last := |late| - 1;
    assert objects == objects[..last] + [objects[last]];
    if Admission(q, cfg, late[last].verb, late[last].path) == Added {
      LateJoins(q, cfg, late[last], objects[last]);
    }
  }

  lemma NoneToAdmit(table: seq<Endpoint>, cfg: Config)
    ensures AdmitsInTurn(table, [], cfg)
  {
  }

  lemma LateJoins(p: Plan, cfg: Config, l: LateRoute, r: RouteDefinition)
    requires p.names.Labelled() && r !in p.names.routes && r.AsEndpoint() == LateEndpoint(l)
    requires Admission(p, cfg, l.verb, l.path) == Added
    ensures var q := RegisterLate(p, cfg, l, r).0;
      q.state == Collecting && q.names.routes == p.names.routes + [r] && q.Declared() == p.Declared() + [LateEndpoint(l)]
  {
    hide RouteConflict, NamedRoutes.AddRoute, ApplyPublicName;
    var q := RegisterLate(p, cfg, l, r).0;
    assert q.names.routes == p.names.routes + [r];
  }

  // ---------------------------------------------------------------------
  // The validation itself
  // ---------------------------------------------------------------------

  function Carriers(routes: seq<RouteDefinition>): (carriers: seq<Carrier>)
    reads routes
    ensures |carriers| == |routes|
    ensures forall k :: 0 <= k < |carriers| ==>
      carriers[k] == Carrier(LabelOf(routes[k]).EffectivePublicName(), routes[k].AsEndpoint())
  {
    if routes == [] then []
    else
      var last := routes[|routes| - 1];
      Carriers(routes[..|routes| - 1]) + [Carrier(LabelOf(last).EffectivePublicName(), last.AsEndpoint())]
  }

  /** The late routes as validation looks at them. */
  ghost predicate StandFor(made: seq<RouteDefinition>, late: seq<LateRoute>)
    reads made
  {
    && |made| == |late|
    && (forall k :: 0 <= k < |late| ==> made[k].AsEndpoint() == LateEndpoint(late[k]))
    && (forall k :: 0 <= k < |late| ==> LabelOf(made[k]) == Label(late[k].name, "", late[k].mode))
  }

  method LateDefinition(l: LateRoute) returns (route: RouteDefinition)
    ensures fresh(route) && route.AsEndpoint() == LateEndpoint(l) && LabelOf(route) == Label(l.name, "", l.mode)
  {
    route := new RouteDefinition(l.verb, l.path, [], []);
    route.name := l.name;
    route.nameMode := l.mode;
  }

  /** collectRoutesForValidation: the declared routes, and a new object for each late one. */
  method CollectRoutesForValidation(routes: seq<RouteDefinition>, late: seq<LateRoute>)
    returns (collected: seq<RouteDefinition>, ghost made: seq<RouteDefinition>)
    ensures collected == routes + made && fresh(made) && StandFor(made, late)
  {
    collected, made := routes, [];
    for i := 0 to |late|
      invariant collected == routes + made && fresh(made) && StandFor(made, late[..i])
    {
      var route := LateDefinition(late[i]);
      made := made + [route];
      collected := collected + [route];
    }
    assert late[..|late|] == late;
  }

  lemma CollectedEndpoints(routes: seq<RouteDefinition>, made: seq<RouteDefinition>, p: Plan)
    requires p.names.routes == routes && StandFor(made, p.late)
    ensures Endpoints(routes + made) == CollectedTable(p)
  {
  }

  lemma CollectedNames(routes: seq<RouteDefinition>, made: seq<RouteDefinition>, p: Plan)
    requires p.names.Labelled() && p.names.routes == routes && StandFor(made, p.late)
    requires forall r :: r in routes ==> p.names.labels[r] == LabelOf(r)
    ensures Carriers(routes + made) == CollectedCarriers(p)
  {
    hide Carriers, CarriersOf, LateCarriers, LabelOf, Label.EffectivePublicName;
    var here, declared, late := Carriers(routes + made), CarriersOf(p.names), LateCarriers(p.late);
    forall k | 0 <= k < |routes|
      ensures here[k] == declared[k]
    {
      assert (routes + made)[k] == routes[k];
    }
    forall k | 0 <= k < |made|
      ensures here[|routes| + k] == late[k]
    {
      assert (routes + made)[|routes| + k] == made[k];
    }
    hide StandFor;
    assert here == declared + late;
  }

  /** ValidateRouteDefinitionsWithOptions */
  method ValidateRouteDefinitions(routes: seq<RouteDefinition>, o: Options) returns (errors: seq<RouteError>)
    ensures errors == PathErrors(Endpoints(routes), |routes|, o)
                    + if o.namePolicy == Error then NameErrors(Carriers(routes), |routes|) else []
  {
    hide RowErrors, NameErrors, Carriers;
    errors := [];
    for i := 0 to |routes|
      invariant errors == PathErrors(Endpoints(routes), i, o)
    {
      var row := ValidateRow(routes, i, o);
      errors := errors + row;
    }
    if o.namePolicy == Error {
      var nameErrors := ValidateNames(routes);
      errors := errors + nameErrors;
    }
  }

  /** The inner loop: route i against every later one. */
  method ValidateRow(routes: seq<RouteDefinition>, i: nat, o: Options) returns (errors: seq<RouteError>)
    requires i < |routes|
    ensures errors == RowErrors(Endpoints(routes), i, |routes|, o)
  {
    hide PairErrors;
    errors := [];
    for j := i + 1 to |routes|
      invariant errors == RowErrors(Endpoints(routes), i, j, o)
    {
      var pair := ValidatePair(routes[i].AsEndpoint(), routes[j].AsEndpoint(), o);
      errors := errors + pair;
    }
  }

  method ValidatePair(left: Endpoint, right: Endpoint, o: Options) returns (errors: seq<RouteError>)
    ensures errors == PairErrors(left, right, o)
  {
    hide PathConflict, IsLinted;
    if left.verb != right.verb {
      return [];
    }
    if left.path == right.path {
      return [PathError(left, right, Conflict(DuplicateRoute, -1, "", ""))];
    }
    errors := [];
    var conflict := DetectPathConflict(left.path, right.path, o.pathMode, o.enforceCatchAll);
    if conflict.Some? {
      errors := [PathError(left, right, conflict.value)];
    }
    if o.lints {
      var there := DetectBareIdLint(left.path, right.path);
      if there {
        errors := errors + [LintError(left, right)];
      }
      var back := DetectBareIdLint(right.path, left.path);
      if back {
        errors := errors + [LintError(right, left)];
      }
    }
  }

  /** The map from public names to the first route seen with them. */
  ghost predicate Remembers(byName: map<string, RouteDefinition>, carriers: seq<Carrier>, k: nat)
    requires k <= |carriers|
  {
    && (forall name :: name in byName ==> name != "" && FirstCarrier(carriers[..k], name).Some?)
    && (forall name :: name in byName ==>
          byName[name].AsEndpoint() == carriers[FirstCarrier(carriers[..k], name).value].endpoint)
    && (forall name :: name !in byName && name != "" ==> FirstCarrier(carriers[..k], name).None?)
  }

  lemma RememberOneMore(byName: map<string, RouteDefinition>, carriers: seq<Carrier>, k: nat, r: RouteDefinition)
    requires k < |carriers| && Remembers(byName, carriers, k) && r.AsEndpoint() == carriers[k].endpoint
    ensures Remembers(
      if carriers[k].name != "" && carriers[k].name !in byName then byName[carriers[k].name := r] else byName,
      carriers, k + 1)
  {
    forall name: string
      ensures FirstCarrier(carriers[..k + 1], name)
           == if FirstCarrier(carriers[..k], name).Some? then FirstCarrier(carriers[..k], name)
              else if carriers[k].name == name then Some(k) else None
    {
      FirstCarrierGrows(carriers, k, name);
    }
  }

  lemma RememberedClash(byName: map<string, RouteDefinition>, carriers: seq<Carrier>, k: nat)
    requires k < |carriers| && Remembers(byName, carriers, k)
    ensures NameErrorAt(carriers, k) ==
      var c := carriers[k];
      if c.name == "" || c.name !in byName || byName[c.name].path == c.endpoint.path then []
      else [NameError(c.name, byName[c.name].AsEndpoint(), c.endpoint)]
  {
  }

  /** validateNamedRouteConflicts: remember the first route of every public name. */
  method ValidateNames(routes: seq<RouteDefinition>) returns (errors: seq<RouteError>)
    ensures errors == NameErrors(Carriers(routes), |routes|)
  {
    errors := [];
    var byName: map<string, RouteDefinition> := map[];
    ghost var carriers := Carriers(routes);
    assert Remembers(byName, carriers, 0);
    hide Carriers, NameErrorAt, Remembers, FirstCarrier;
    for k := 0 to |routes|
      invariant errors == NameErrors(carriers, k)
      invariant Remembers(byName, carriers, k)
    {
      var found;
      byName, found := ValidateName(routes[k], byName, carriers, k);
      errors := errors + found;
    }
  }

  method ValidateName(route: RouteDefinition, byName: map<string, RouteDefinition>, ghost carriers: seq<Carrier>, ghost k: nat)
    returns (remembered: map<string, RouteDefinition>, errors: seq<RouteError>)
    requires k < |carriers| && Remembers(byName, carriers, k)
    requires carriers[k] == Carrier(LabelOf(route).EffectivePublicName(), route.AsEndpoint())
    ensures Remembers(remembered, carriers, k + 1) && errors == NameErrorAt(carriers, k)
  {
    hide NameErrorAt, Remembers;
    var publicName := LabelOf(route).EffectivePublicName();
    RememberOneMore(byName, carriers, k, route);
    RememberedClash(byName, carriers, k);
    remembered, errors := byName, [];
    if publicName == "" {
      return;
    }
    if publicName !in byName {
      remembered := byName[publicName := route];
    } else if byName[publicName].path != route.path {
      errors := [NameError(publicName, byName[publicName].AsEndpoint(), route.AsEndpoint())];
    }
  }

  lemma FirstCarrierGrows(carriers: seq<Carrier>, k: nat, name: string)
    requires k < |carriers|
    ensures FirstCarrier(carriers[..k + 1], name)
         == if FirstCarrier(carriers[..k], name).Some? then FirstCarrier(carriers[..k], name)
            else if carriers[k].name == name then Some(k) else None
  {
    var before, after := FirstCarrier(carriers[..k], name), FirstCarrier(carriers[..k + 1], name);
    assert before.Some? ==> carriers[..k + 1][before.value].name == name;
    assert after.Some? && after.value < k ==> carriers[..k][after.value].name == name;
    assert carriers[..k + 1][k] == carriers[k];
  }
}

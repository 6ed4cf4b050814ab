/** The registration plan of a router: declared, deferred and mounted routes, their names,
    the lifecycle state and the revision counter. */
module Registration {
  import opened Patterns
  import opened PathConflicts
  import opened SharedRequests
  import opened Wrappers
  import opened Permutations
  import opened Routes
  import opened TableSorting
  import opened NamedRoutes

  datatype RegistrationState = Collecting | Finalizing | Sealed

  datatype ConflictPolicy = Panic | LogAndSkip | LogAndContinue

  datatype Adapter = Fiber | HttpRouter

  /** httprouter always runs in strict mode with catch-alls enforced and without lints, and
      mounts at once. */
  datatype Config = Config(
    adapter: Adapter,
    conflictPolicy: ConflictPolicy,
    pathMode: PathConflictMode,
    enforceCatchAll: bool,
    orderBySpecificity: bool,
    enforceLints: bool,
    strictRoutes: bool,
    namePolicy: NamePolicy)
  {
    /** Only Fiber can mount two routes that conflict. */
    predicate MountsConflicts() {
      adapter == Fiber && conflictPolicy == LogAndContinue
    }
  }

  /** The final handler of a declaration and the middlewares that go before it. */
  datatype Chain = Chain(middlewares: seq<Link>, handler: string)
  {
    /** What chainHandlers builds: the middlewares in order, then the handler. */
    function Links(routeName: string): seq<Link> {
      middlewares + [Link(routeName, handler)]
    }
  }

  datatype LateRoute = LateRoute(verb: HttpMethod, path: string, name: string, mode: RouteNameMode, chain: Chain)

  datatype Plan = Plan(
    state: RegistrationState,
    revision: nat,
    names: Names,
    mounted: seq<RouteDefinition>,
    deferred: seq<RouteDefinition>,
    deferredRegistered: bool,
    late: seq<LateRoute>)
  {
    function Declared(): seq<Endpoint> {
      Endpoints(names.routes)
    }
  }

  const EMPTY_PLAN := Plan(Collecting, 0, NO_NAMES, [], [], false, [])

  datatype Outcome = Added | Replaced | Skipped | Panicked | Rejected

  // ---------------------------------------------------------------------
  // One operation on the plan
  // ---------------------------------------------------------------------

  /** The conflict with the first declared route of the method that has one. */
  function RouteConflict(routes: seq<Endpoint>, verb: HttpMethod, path: string, cfg: Config): (conflict: Option<Conflict>)
    ensures conflict.None? <==> forall k :: 0 <= k < |routes| && routes[k].verb == verb ==>
      routes[k].path != path && PathConflict(routes[k].path, path, cfg.pathMode, cfg.enforceCatchAll).None?
  {
    if routes == [] then None
    else if routes[0].verb == verb && routes[0].path == path then Some(Conflict(DuplicateRoute, -1, "", ""))
    else if routes[0].verb == verb && PathConflict(routes[0].path, path, cfg.pathMode, cfg.enforceCatchAll).Some? then
      PathConflict(routes[0].path, path, cfg.pathMode, cfg.enforceCatchAll)
    else RouteConflict(routes[1..], verb, path, cfg)
  }

  /** The first declared route of the method that is the same or conflicts decides what is
      reported: a duplicate of the whole route, or the conflict of the two paths. */
  lemma {:induction false} FirstConflictIsReported(routes: seq<Endpoint>, verb: HttpMethod, path: string, cfg: Config, k: nat)
    requires k < |routes| && routes[k].verb == verb
    requires routes[k].path == path || PathConflict(routes[k].path, path, cfg.pathMode, cfg.enforceCatchAll).Some?
    requires forall j :: 0 <= j < k && routes[j].verb == verb ==>
      routes[j].path != path && PathConflict(routes[j].path, path, cfg.pathMode, cfg.enforceCatchAll).None?
    ensures RouteConflict(routes, verb, path, cfg)
         == if routes[k].path == path then Some(Conflict(DuplicateRoute, -1, "", ""))
            else PathConflict(routes[k].path, path, cfg.pathMode, cfg.enforceCatchAll)
  {
    hide PathConflict;
    if k > 0 {
      FirstConflictIsReported(routes[1..], verb, path, cfg, k - 1);
    }
  }

  /** addRoute followed by routeRegistration: the route is deferred or mounted. */
  function AddAndMount(p: Plan, cfg: Config, r: RouteDefinition, internalName: string): (q: Plan)
    requires p.names.Labelled()
    ensures q.names.Labelled() && q.names.routes == p.names.routes + [r]
  {
    var q := p.(names := NamedRoutes.AddRoute(p.names, r, internalName), revision := p.revision + 1);
    if cfg.adapter == Fiber && cfg.orderBySpecificity && !p.deferredRegistered
    then q.(deferred := p.deferred + [r])
    else q.(mounted := p.mounted + [r])
  }

  /** What becomes of a declaration, which does not depend on the route object made for it. */
  function Admission(p: Plan, cfg: Config, verb: HttpMethod, path: string): (outcome: Outcome)
    ensures outcome == Added || outcome == Skipped || outcome == Panicked
    ensures outcome != Panicked ==> p.state == Collecting
  {
    if p.state != Collecting then Panicked
    else if RouteConflict(p.Declared(), verb, path, cfg).Some? && !cfg.MountsConflicts() then
      if cfg.conflictPolicy == Panic then Panicked else Skipped
    else Added
  }

  /** A declared route of the method has the same path, or its path conflicts. */
  ghost predicate ConflictsWithDeclared(table: seq<Endpoint>, verb: HttpMethod, path: string, cfg: Config) {
    exists k :: 0 <= k < |table| && table[k].verb == verb
      && (table[k].path == path || PathConflict(table[k].path, path, cfg.pathMode, cfg.enforceCatchAll).Some?)
  }

  /** What becomes of a declaration, by state, conflict, policy and adapter. A conflict is
      mounted only by Fiber and only under log-and-continue. */
  lemma AdmissionExactly(p: Plan, cfg: Config, verb: HttpMethod, path: string)
    ensures var outcome, conflict := Admission(p, cfg, verb, path), ConflictsWithDeclared(p.Declared(), verb, path, cfg);
      && (outcome == Panicked <==> p.state != Collecting || (conflict && cfg.conflictPolicy == Panic))
      && (outcome == Skipped <==>
            p.state == Collecting && conflict
            && (cfg.conflictPolicy == LogAndSkip || (cfg.conflictPolicy == LogAndContinue && cfg.adapter == HttpRouter)))
      && (outcome == Added <==>
            p.state == Collecting && (conflict ==> cfg.adapter == Fiber && cfg.conflictPolicy == LogAndContinue))
  {
    hide PathConflict;
  }

  /** The same for an upsert, which reports a conflict instead of panicking or skipping. */
  lemma UpsertAdmissionExactly(p: Plan, cfg: Config, verb: HttpMethod, path: string)
    ensures var outcome, table := UpsertAdmission(p, cfg, verb, path), p.Declared();
      var known, conflict := exists k :: 0 <= k < |table| && table[k].verb == verb && table[k].path == path,
                             ConflictsWithDeclared(table, verb, path, cfg);
      && (outcome == Replaced <==> p.state == Collecting && known)
      && (outcome == Rejected <==>
            p.state != Collecting || (!known && conflict && !(cfg.adapter == Fiber && cfg.conflictPolicy == LogAndContinue)))
      && (outcome == Added <==>
            p.state == Collecting && !known
            && (conflict ==> cfg.adapter == Fiber && cfg.conflictPolicy == LogAndContinue))
  {
    hide PathConflict;
    var table := p.Declared();
    if k :| 0 <= k < |table| && table[k].verb == verb && table[k].path == path {
      assert table[k] == Endpoint(verb, path);
    }
  }

  /** Handle, handleFull and WebSocket. */
  function Declare(p: Plan, cfg: Config, r: RouteDefinition, internalName: string): (result: (Plan, Outcome))
    requires p.names.Labelled()
    ensures result.0.names.Labelled()
    ensures result.0.names.routes == p.names.routes + if result.1 == Added then [r] else []
  {
    var outcome := Admission(p, cfg, r.verb, r.path);
    (if outcome == Added then AddAndMount(p, cfg, r, internalName) else p, outcome)
  }

  predicate Declares(p: Plan, e: Endpoint) {
    e in p.Declared()
  }

  /** TryReplace: the handler chain of an exact match is replaced, nothing is added. */
  function ReplaceRoute(p: Plan, e: Endpoint): (Plan, Outcome) {
    if p.state != Collecting || !Declares(p, e) then (p, Rejected)
    else (p.(revision := p.revision + 1), Replaced)
  }

  /** TryUpsert: replace an exact match, or add the route unless it conflicts. */
  function UpsertAdmission(p: Plan, cfg: Config, verb: HttpMethod, path: string): (outcome: Outcome)
    ensures outcome == Added || outcome == Replaced || outcome == Rejected
  {
    if p.state != Collecting then Rejected
    else if Declares(p, Endpoint(verb, path)) then Replaced
    else if RouteConflict(p.Declared(), verb, path, cfg).Some? && !cfg.MountsConflicts() then Rejected
    else Added
  }

  function Upsert(p: Plan, cfg: Config, r: RouteDefinition): (result: (Plan, Outcome))
    requires p.names.Labelled()
    ensures result.0.names.Labelled()
    ensures result.0.names.routes == p.names.routes + if result.1 == Added then [r] else []
  {
    var outcome := UpsertAdmission(p, cfg, r.verb, r.path);
    if outcome == Added then (AddAndMount(p, cfg, r, ""), Added)
    else if outcome == Replaced then (p.(revision := p.revision + 1), Replaced)
    else (p, Rejected)
  }

  /** setPublicRouteName: only a naming that succeeds counts as a revision. */
  function Rename(p: Plan, cfg: Config, r: RouteDefinition, name: string): (result: (Plan, Outcome))
    requires p.names.Labelled() && r in p.names.routes
    ensures result.0.names.Labelled() && result.0.names.routes == p.names.routes
  {
    if p.state != Collecting then (p, Panicked)
    else
      var (names, ok) := ApplyPublicName(p.names, r, name, cfg.namePolicy);
      if ok then (p.(names := names, revision := p.revision + 1), Added) else (p.(names := names), Rejected)
  }

  /** A late declaration joins the plan and receives its name. */
  function RegisterLate(p: Plan, cfg: Config, l: LateRoute, r: RouteDefinition): (result: (Plan, Outcome))
    requires p.names.Labelled() && r !in p.names.routes
    ensures result.0.names.Labelled()
    ensures result.0.names.routes == p.names.routes + if result.1 == Added then [r] else []
  {
    var (q, outcome) := Declare(p, cfg, r, "");
    if outcome != Added || l.name == "" then (q, outcome)
    else if l.mode == Internal then (q.(names := ApplyInternalName(q.names, r, l.name)), Added)
    else (Rename(q, cfg, r, l.name).0, Added)
  }

  /** registerLateRoutes: the late declarations in order, with the route object made for
      each one that is admitted. The first panic stops the loop. */
  function JoinAll(p: Plan, cfg: Config, late: seq<LateRoute>, objects: seq<RouteDefinition?>): (result: (Plan, bool))
    requires p.names.Labelled() && |objects| == |late|
    ensures result.0.names.Labelled()
  {
    if late == [] then (p, true)
    else
      var last := |late| - 1;
      var (q, ok) := JoinAll(p, cfg, late[..last], objects[..last]);
      var admission := Admission(q, cfg, late[last].verb, late[last].path);
      if !ok || admission == Panicked then (q, false)
      else if admission == Skipped then (q, true)
      else if objects[last] != null && objects[last] !in q.names.routes
      then (RegisterLate(q, cfg, late[last], objects[last]).0, true)
      else (q, false)
  }

  lemma NothingToJoin(p: Plan, cfg: Config)
    requires p.names.Labelled()
    ensures JoinAll(p, cfg, [], []) == (p, true)
  {
  }

  /** The last turn of the loop, seen from the state the earlier ones left. */
  lemma JoinOne(p: Plan, cfg: Config, late: seq<LateRoute>, l: LateRoute, objects: seq<RouteDefinition?>, r: RouteDefinition?)
    requires p.names.Labelled() && |objects| == |late| && JoinAll(p, cfg, late, objects).1
    ensures var q, admission := JoinAll(p, cfg, late, objects).0, Admission(JoinAll(p, cfg, late, objects).0, cfg, l.verb, l.path);
      && (admission == Panicked ==> JoinAll(p, cfg, late + [l], objects + [r]) == (q, false))
      && (admission == Skipped ==> JoinAll(p, cfg, late + [l], objects + [r]) == (q, true))
      && (admission == Added && r != null && r !in q.names.routes ==>
            JoinAll(p, cfg, late + [l], objects + [r]) == (RegisterLate(q, cfg, l, r).0, true))
  {
    hide Admission, RegisterLate;
    assert (late + [l])[..|late|] == late && (objects + [r])[..|objects|] == objects;
  }

  /** From beginFinalization to finishFinalization, under one lock: the deferred routes
      are sorted and mounted, and the plan is sealed. */
  function Finalize(p: Plan, cfg: Config): Plan {
    if p.state == Sealed then p
    else
      var q := p.(state := Sealed, revision := p.revision + 2);
      if cfg.adapter != Fiber || !cfg.orderBySpecificity || p.deferredRegistered then q
      else q.(deferredRegistered := true,
              mounted := p.mounted + Pick(p.deferred, SortedIndexes(Endpoints(p.deferred))),
              deferred := [])
  }

  datatype Op =
    | Handle(route: RouteDefinition, internalName: string)
    | TryUpsert(route: RouteDefinition)
    | TryReplace(endpoint: Endpoint)
    | SetRouteName(route: RouteDefinition, name: string)
    | DeclareLate(late: LateRoute)
    | JoinLate(late: LateRoute, route: RouteDefinition)
    | DropLate
    | Touch(changed: bool)
    | Seal

  /** Operations on routes that are not fresh, or not declared, do not occur. */
  function Apply(p: Plan, cfg: Config, op: Op): (q: Plan)
    requires p.names.Labelled()
    ensures q.names.Labelled()
  {
    match op
    case Handle(r, internalName) => if r in p.names.routes then p else Declare(p, cfg, r, internalName).0
    case TryUpsert(r) => if r in p.names.routes then p else Upsert(p, cfg, r).0
    case TryReplace(e) => ReplaceRoute(p, e).0
    case SetRouteName(r, name) => if r in p.names.routes then Rename(p, cfg, r, name).0 else p
    case DeclareLate(l) => if p.state != Collecting then p else p.(late := p.late + [l], revision := p.revision + 1)
    case JoinLate(l, r) => if r in p.names.routes then p else RegisterLate(p, cfg, l, r).0
    case DropLate => p.(late := [])
    case Touch(changed) => if p.state == Collecting && changed then p.(revision := p.revision + 1) else p
    case Seal => Finalize(p, cfg)
  }

  function Run(cfg: Config, ops: seq<Op>): (p: Plan)
    ensures p.names.Labelled()
  {
    if ops == [] then EMPTY_PLAN else Apply(Run(cfg, ops[..|ops| - 1]), cfg, ops[|ops| - 1])
  }

  // ---------------------------------------------------------------------
  // The lifecycle
  // ---------------------------------------------------------------------

  /** With specificity ordering nothing is mounted before the plan is sealed, and then
      exactly the sorted declared routes are. Otherwise every route is mounted at once. */
  ghost predicate Lifecycle(p: Plan, cfg: Config) {
    && p.state != Finalizing
    && if cfg.adapter == Fiber && cfg.orderBySpecificity then
         if p.state == Collecting then p.deferred == p.names.routes && p.mounted == [] && !p.deferredRegistered
         else p.deferredRegistered && p.deferred == []
              && p.mounted == Pick(p.names.routes, SortedIndexes(Endpoints(p.names.routes)))
       else p.mounted == p.names.routes && p.deferred == [] && !p.deferredRegistered
  }

  /** How an operation can move the parts of a plan that snapshots show. */
  ghost predicate Moves(p: Plan, q: Plan, cfg: Config) {
    && p.revision <= q.revision
    && (p.revision == q.revision ==> q.names.routes == p.names.routes && q.mounted == p.mounted)
    && (p.state == Sealed ==> q == p.(late := q.late))
    && (Lifecycle(p, cfg) ==> Lifecycle(q, cfg))
    && (Agreement(p.names) ==> Agreement(q.names))
  }

  lemma AddAndMountMoves(p: Plan, cfg: Config, r: RouteDefinition, internalName: string)
    requires p.names.Labelled() && p.state == Collecting && r !in p.names.routes
    ensures Moves(p, AddAndMount(p, cfg, r, internalName), cfg)
  {
    if Agreement(p.names) {
      AddRouteKeepsAgreement(p.names, r, internalName);
    }
  }

  lemma RenameMoves(p: Plan, cfg: Config, r: RouteDefinition, name: string)
    requires p.names.Labelled() && r in p.names.routes
    ensures Moves(p, Rename(p, cfg, r, name).0, cfg)
  {
    if Agreement(p.names) {
      ApplyPublicNameKeepsAgreement(p.names, r, name, cfg.namePolicy);
    }
  }

  lemma RegisterLateMoves(p: Plan, cfg: Config, l: LateRoute, r: RouteDefinition)
    requires p.names.Labelled() && r !in p.names.routes
    ensures Moves(p, RegisterLate(p, cfg, l, r).0, cfg)
  {
    hide RouteConflict, ApplyPublicName, Agreement, NamedRoutes.AddRoute;
    var (q, outcome) := Declare(p, cfg, r, "");
    if outcome == Added {
      AddAndMountMoves(p, cfg, r, "");
      if l.name != "" && l.mode != Internal {
        RenameMoves(q, cfg, r, l.name);
      } else if l.name != "" && Agreement(p.names) {
        InternalNameOfFreshRoute(p.names, r, l.name);
      }
    }
  }

  lemma InternalNameOfFreshRoute(n: Names, r: RouteDefinition, name: string)
    requires Agreement(n) && r !in n.routes && name != ""
    ensures Agreement(ApplyInternalName(NamedRoutes.AddRoute(n, r, ""), r, name))
  {
    AddRouteKeepsAgreement(n, r, name);
    assert ApplyInternalName(NamedRoutes.AddRoute(n, r, ""), r, name).labels == NamedRoutes.AddRoute(n, r, name).labels;
  }

  lemma ApplyMoves(p: Plan, cfg: Config, op: Op)
    requires p.names.Labelled()
    ensures Moves(p, Apply(p, cfg, op), cfg)
  {
    hide RouteConflict, ApplyPublicName, Agreement, NamedRoutes.AddRoute;
    match op
    case Handle(r, internalName) =>
      if r !in p.names.routes && p.state == Collecting {
        AddAndMountMoves(p, cfg, r, internalName);
      }
    case TryUpsert(r) =>
      if r !in p.names.routes && p.state == Collecting {
        AddAndMountMoves(p, cfg, r, "");
      }
    case SetRouteName(r, name) =>
      if r in p.names.routes {
        RenameMoves(p, cfg, r, name);
      }
    case JoinLate(l, r) =>
      if r !in p.names.routes {
        RegisterLateMoves(p, cfg, l, r);
      }
    case _ =>
  }

  /** In every state between two operations: the mounted list is empty while a sorting
      router collects and the specificity sort of the declared list once it is sealed,
      no snapshot can show the finalizing state, and the name index agrees. */
  lemma {:induction false} RunsKeepLifecycle(cfg: Config, ops: seq<Op>)
    ensures Lifecycle(Run(cfg, ops), cfg) && Agreement(Run(cfg, ops).names)
  {
    if ops != [] {
      RunsKeepLifecycle(cfg, ops[..|ops| - 1]);
      ApplyMoves(Run(cfg, ops[..|ops| - 1]), cfg, ops[|ops| - 1]);
    }
  }

  lemma {:induction false} RunsMoveForward(cfg: Config, ops: seq<Op>, i: nat)
    requires i <= |ops|
    ensures var p, q := Run(cfg, ops[..i]), Run(cfg, ops);
            && p.revision <= q.revision
            && (p.revision == q.revision ==> q.names.routes == p.names.routes && q.mounted == p.mounted)
            && (p.state == Sealed ==> q == p.(late := q.late))
  {
    if i == |ops| {
      assert ops[..i] == ops;
    } else {
      var front := ops[..|ops| - 1];
      RunsMoveForward(cfg, front, i);
      assert front[..i] == ops[..i];
      ApplyMoves(Run(cfg, front), cfg, ops[|ops| - 1]);
    }
  }

  /** Two snapshots of one run with equal revisions show equal declared and mounted lists. */
  lemma EqualRevisionsShowEqualTables(cfg: Config, ops: seq<Op>, i: nat, j: nat)
    requires i <= |ops| && j <= |ops|
    requires Run(cfg, ops[..i]).revision == Run(cfg, ops[..j]).revision
    ensures Run(cfg, ops[..i]).Declared() == Run(cfg, ops[..j]).Declared()
    ensures Endpoints(Run(cfg, ops[..i]).mounted) == Endpoints(Run(cfg, ops[..j]).mounted)
  {
    var a, b := if i <= j then i else j, if i <= j then j else i;
    RunsMoveForward(cfg, ops[..b], a);
    assert ops[..b][..a] == ops[..a];
  }

  /** Once sealed, a plan never changes again; only late declarations that were never
      registered can still be dropped. */
  lemma SealedPlanNeverChanges(cfg: Config, ops: seq<Op>, i: nat)
    requires i <= |ops| && Run(cfg, ops[..i]).state == Sealed
    ensures Run(cfg, ops) == Run(cfg, ops[..i]).(late := Run(cfg, ops).late)
  {
    RunsMoveForward(cfg, ops, i);
  }

  /** A sealed sorting router mounts a permutation of what was declared, in which no
      route stands before a strictly narrower one of its method. */
  lemma SealedRouterDispatchesNarrowerFirst(cfg: Config, ops: seq<Op>)
    requires cfg.adapter == Fiber && cfg.orderBySpecificity && Run(cfg, ops).state == Sealed
    ensures multiset(Run(cfg, ops).mounted) == multiset(Run(cfg, ops).names.routes)
    ensures NarrowerFirst(Endpoints(Run(cfg, ops).mounted))
  {
    RunsKeepLifecycle(cfg, ops);
    var p := Run(cfg, ops);
    SortingPermutesWithinMethods(p.Declared());
    PickIsPermutation(p.names.routes, SortedIndexes(p.Declared()));
    SortedTableIsNarrowerFirst(p.Declared());
    assert Endpoints(p.mounted) == Sorted(p.Declared());
  }

  // ---------------------------------------------------------------------
  // The httprouter table
  // ---------------------------------------------------------------------

  /** No two routes of a method are the same or conflict. */
  ghost predicate ConflictFree(table: seq<Endpoint>, cfg: Config) {
    forall i, j :: 0 <= i < j < |table| && table[i].verb == table[j].verb ==>
      table[i].path != table[j].path
      && PathConflict(table[i].path, table[j].path, cfg.pathMode, cfg.enforceCatchAll).None?
  }

  lemma AcceptedRouteKeepsConflictFree(table: seq<Endpoint>, e: Endpoint, cfg: Config)
    requires ConflictFree(table, cfg) && RouteConflict(table, e.verb, e.path, cfg).None?
    ensures ConflictFree(table + [e], cfg)
  {
    hide PathConflict;
  }

  lemma ApplyKeepsConflictFree(p: Plan, cfg: Config, op: Op)
    requires p.names.Labelled() && ConflictFree(p.Declared(), cfg) && !cfg.MountsConflicts()
    ensures ConflictFree(Apply(p, cfg, op).Declared(), cfg)
  {
    hide PathConflict, RouteConflict, ConflictFree, ApplyPublicName, NamedRoutes.AddRoute;
    var q := Apply(p, cfg, op);
    if op.Handle? || op.TryUpsert? || op.JoinLate? {
      if q.names.routes != p.names.routes {
        AcceptedRouteKeepsConflictFree(p.Declared(), op.route.AsEndpoint(), cfg);
        assert q.Declared() == p.Declared() + [op.route.AsEndpoint()];
      }
    } else {
      assert q.names.routes == p.names.routes;
    }
  }

  /** Only Fiber under log-and-continue ever holds two conflicting routes. */
  lemma {:induction false} RunsKeepConflictFree(cfg: Config, ops: seq<Op>)
    requires cfg.adapter == HttpRouter || cfg.conflictPolicy != LogAndContinue
    ensures ConflictFree(Run(cfg, ops).Declared(), cfg)
  {
    if ops != [] {
      RunsKeepConflictFree(cfg, ops[..|ops| - 1]);
      ApplyKeepsConflictFree(Run(cfg, ops[..|ops| - 1]), cfg, ops[|ops| - 1]);
    }
  }

  /** Whatever was registered, upserted or opened as a websocket, no two httprouter routes
      of one method overlap, except for the two spellings of one static path with and
      without a trailing slash. Overlap is read as conflict detection and httprouter do: a
      catch-all takes one or more segments. */
  lemma HttpRouterTableIsUnambiguous(cfg: Config, ops: seq<Op>, i: nat, j: nat)
    requires cfg.adapter == HttpRouter && cfg.pathMode == Strict && cfg.enforceCatchAll && !cfg.enforceLints
    requires var table := Run(cfg, ops).Declared(); i < j < |table| && table[i].verb == table[j].verb
    ensures var table := Run(cfg, ops).Declared();
            table[i].path != table[j].path
            && (!Overlap(table[i].path, table[j].path) || StaticTwins(table[i].path, table[j].path))
  {
    RunsKeepConflictFree(cfg, ops);
    var table := Run(cfg, ops).Declared();
    StrictConflictDecidesOverlap(table[i].path, table[j].path, true);
  }

  lemma TwinsOverlap(p: string, q: string)
    requires StaticTwins(p, q)
    ensures Overlap(p, q)
  {
    OverlapMeaning(p, q);
  }

  /** By the code's own path matching, where a catch-all may take nothing, two such routes
      other than the root share a request exactly if they are one static path or one of them
      stops at the catch-all of the other. */
  lemma HttpRouterRoutesShareExactly(cfg: Config, ops: seq<Op>, i: nat, j: nat)
    requires cfg.adapter == HttpRouter && cfg.pathMode == Strict && cfg.enforceCatchAll && !cfg.enforceLints
    requires var table := Run(cfg, ops).Declared(); i < j < |table| && table[i].verb == table[j].verb
    requires var table := Run(cfg, ops).Declared(); WellFormed(table[i].path) && WellFormed(table[j].path)
    requires var table := Run(cfg, ops).Declared(); !IsRoot(table[i].path) && !IsRoot(table[j].path)
    ensures var table := Run(cfg, ops).Declared();
            var p, q := table[i].path, table[j].path;
            ShareRequest(p, q) <==> StaticTwins(p, q) || StopsAtCatchAllOf(p, q) || StopsAtCatchAllOf(q, p)
  {
    hide Run, Overlap, ShareRequest, StaticTwins, StopsAtCatchAllOf, WellFormed;
    HttpRouterTableIsUnambiguous(cfg, ops, i, j);
    var table := Run(cfg, ops).Declared();
    SharedRequestsExactly(table[i].path, table[j].path);
    if StaticTwins(table[i].path, table[j].path) {
      TwinsOverlap(table[i].path, table[j].path);
    }
  }

  // ---------------------------------------------------------------------
  // Names in whole runs
  // ---------------------------------------------------------------------

  lemma AddRouteKeepsOnePath(n: Names, r: RouteDefinition, internalName: string)
    requires Agreement(n) && OnePathPerName(n) && r !in n.routes
    ensures var m := NamedRoutes.AddRoute(n, r, internalName); Agreement(m) && OnePathPerName(m)
  {
    AddRouteKeepsAgreement(n, r, internalName);
    var m := NamedRoutes.AddRoute(n, r, internalName);
    forall s | s in m.routes && m.PublicName(s) != ""
      ensures m.bindings[m.PublicName(s)].path == s.path
    {
      assert s in n.routes && m.PublicName(s) == n.PublicName(s);
    }
  }

  /** Agreement and one path per public name. */
  ghost predicate WellNamed(n: Names) {
    Agreement(n) && OnePathPerName(n)
  }

  lemma RegisterLateKeepsNames(p: Plan, cfg: Config, l: LateRoute, r: RouteDefinition)
    requires p.names.Labelled() && r !in p.names.routes && cfg.namePolicy != Replace && WellNamed(p.names)
    ensures WellNamed(RegisterLate(p, cfg, l, r).0.names)
  {
    hide RouteConflict, ApplyPublicName, Agreement, OnePathPerName, NamedRoutes.AddRoute;
    var (q, outcome) := Declare(p, cfg, r, "");
    if outcome == Added {
      AddRouteKeepsOnePath(p.names, r, "");
      if l.name != "" && l.mode != Internal {
        ApplyPublicNameKeepsOnePath(q.names, r, l.name, cfg.namePolicy);
      } else if l.name != "" {
        AddRouteKeepsOnePath(p.names, r, l.name);
        InternalNameIsAdded(p.names, r, l.name);
      }
    }
  }

  lemma InternalNameIsAdded(n: Names, r: RouteDefinition, name: string)
    requires n.Labelled() && r !in n.routes && name != ""
    ensures ApplyInternalName(NamedRoutes.AddRoute(n, r, ""), r, name) == NamedRoutes.AddRoute(n, r, name)
  {
    assert ApplyInternalName(NamedRoutes.AddRoute(n, r, ""), r, name).labels == NamedRoutes.AddRoute(n, r, name).labels;
  }

  lemma ApplyKeepsNames(p: Plan, cfg: Config, op: Op)
    requires p.names.Labelled() && cfg.namePolicy != Replace && WellNamed(p.names)
    ensures WellNamed(Apply(p, cfg, op).names)
  {
    hide RouteConflict, ApplyPublicName, Agreement, OnePathPerName, NamedRoutes.AddRoute;
    match op
    case Handle(r, internalName) =>
      if r !in p.names.routes {
        AddRouteKeepsOnePath(p.names, r, internalName);
      }
    case TryUpsert(r) =>
      if r !in p.names.routes {
        AddRouteKeepsOnePath(p.names, r, "");
      }
    case SetRouteName(r, name) =>
      if r in p.names.routes {
        ApplyPublicNameKeepsOnePath(p.names, r, name, cfg.namePolicy);
      }
    case JoinLate(l, r) =>
      if r !in p.names.routes {
        RegisterLateKeepsNames(p, cfg, l, r);
      }
    case _ =>
  }

  /** Without the replace policy a public name stands for one path in every registration
      run, late routes included. */
  lemma {:induction false} RunsKeepNames(cfg: Config, ops: seq<Op>)
    requires cfg.namePolicy != Replace
    ensures WellNamed(Run(cfg, ops).names)
  {
    if ops != [] {
      RunsKeepNames(cfg, ops[..|ops| - 1]);
      ApplyKeepsNames(Run(cfg, ops[..|ops| - 1]), cfg, ops[|ops| - 1]);
    }
  }

  // ---------------------------------------------------------------------
  // The name a route carries
  // ---------------------------------------------------------------------

  /** Whether a public naming goes through: while collecting, unless skip or error finds the
      name leading to another path. */
  predicate TakesName(p: Plan, cfg: Config, r: RouteDefinition, name: string) {
    && p.state == Collecting
    && (name == "" || cfg.namePolicy == Replace || name !in p.names.bindings || p.names.bindings[name].path == r.path)
  }

  /** The naming fields of a route after a public naming that went through. */
  function Named(name: string): Label {
    if name == "" then Label("", "", Public) else Label(name, name, Public)
  }

  /** The naming fields of a route that the router itself named, or did not name. */
  function NamedByRouter(name: string): Label {
    if name == "" then Label("", "", Unspecified) else Label(name, "", Internal)
  }

  /** What the operations of a run say a route is called: what its declaration gave it, and
      then what each later naming that went through did. */
  function NameGiven(cfg: Config, ops: seq<Op>, r: RouteDefinition): Label {
    if ops == [] then Label("", "", Unspecified)
    else
      var last := |ops| - 1;
      var p, before := Run(cfg, ops[..last]), NameGiven(cfg, ops[..last], r);
      match ops[last]
      case Handle(s, internalName) => if s == r && r !in p.names.routes then NamedByRouter(internalName) else before
      case TryUpsert(s) => if s == r && r !in p.names.routes then NamedByRouter("") else before
      case SetRouteName(s, name) => if s == r && r in p.names.routes && TakesName(p, cfg, r, name) then Named(name) else before
      case JoinLate(l, s) =>
        if s != r || r in p.names.routes then before
        else if l.name == "" then NamedByRouter("")
        else if l.mode == Internal then NamedByRouter(l.name)
        else if TakesName(p, cfg, r, l.name) then Named(l.name)
        else NamedByRouter("")
      case _ => before
  }

  /** The naming fields of every declared route are what the run gave it. */
  lemma {:induction false} RoutesAreCalledAsGiven(cfg: Config, ops: seq<Op>, r: RouteDefinition)
    requires r in Run(cfg, ops).names.routes
    ensures Run(cfg, ops).names.labels[r] == NameGiven(cfg, ops, r)
  {
    var last := |ops| - 1;
    var p := Run(cfg, ops[..last]);
    if r in p.names.routes {
      RoutesAreCalledAsGiven(cfg, ops[..last], r);
    }
    StepNames(p, cfg, ops[last], r);
  }

  /** What one operation does to the naming fields of one route. */
  lemma StepNames(p: Plan, cfg: Config, op: Op, r: RouteDefinition)
    requires p.names.Labelled() && r in Apply(p, cfg, op).names.routes
    ensures var after := Apply(p, cfg, op).names.labels[r];
      if r in p.names.routes then
        after == if op.SetRouteName? && op.route == r && TakesName(p, cfg, r, op.name) then Named(op.name) else p.names.labels[r]
      else
        && (op.Handle? || op.TryUpsert? || op.JoinLate?) && op.route == r
        && (op.Handle? ==> after == NamedByRouter(op.internalName))
        && (op.TryUpsert? ==> after == NamedByRouter(""))
        && (op.JoinLate? ==>
              after == if op.late.name == "" then NamedByRouter("")
                       else if op.late.mode == Internal then NamedByRouter(op.late.name)
                       else if TakesName(p, cfg, r, op.late.name) then Named(op.late.name)
                       else NamedByRouter(""))
  {
    hide RouteConflict, ApplyPublicName, RegisterLate;
    match op
    case SetRouteName(s, name) =>
      if s in p.names.routes {
        NamingExactly(p.names, s, name, cfg.namePolicy);
      }
    case JoinLate(l, s) =>
      if s !in p.names.routes {
        LateRouteIsCalled(p, cfg, l, s, r);
      }
    case _ =>
  }

  lemma LateRouteIsCalled(p: Plan, cfg: Config, l: LateRoute, s: RouteDefinition, r: RouteDefinition)
    requires p.names.Labelled() && s !in p.names.routes && r in RegisterLate(p, cfg, l, s).0.names.routes
    ensures var after := RegisterLate(p, cfg, l, s).0.names.labels[r];
      if r in p.names.routes then after == p.names.labels[r]
      else
        && r == s
        && after == if l.name == "" then NamedByRouter("")
                    else if l.mode == Internal then NamedByRouter(l.name)
                    else if TakesName(p, cfg, r, l.name) then Named(l.name)
                    else NamedByRouter("")
  {
    hide RouteConflict, ApplyPublicName;
    if Admission(p, cfg, s.verb, s.path) == Added {
      NamingExactly(NamedRoutes.AddRoute(p.names, s, ""), s, l.name, cfg.namePolicy);
    }
  }

  /** How each operation counts: one revision for a route added or replaced, for a naming that
      goes through, and for a late declaration; two for sealing; none for a refusal. */
  lemma RevisionMeaning(p: Plan, cfg: Config, op: Op)
    requires p.names.Labelled()
    ensures var more := Apply(p, cfg, op).revision - p.revision;
      match op
      case Handle(r, _) =>
        more == if r !in p.names.routes && Admission(p, cfg, r.verb, r.path) == Added then 1 else 0
      case TryUpsert(r) =>
        more == if r !in p.names.routes && UpsertAdmission(p, cfg, r.verb, r.path) != Rejected then 1 else 0
      case TryReplace(e) => more == if p.state == Collecting && e in p.Declared() then 1 else 0
      case SetRouteName(r, name) => more == if r in p.names.routes && TakesName(p, cfg, r, name) then 1 else 0
      case DeclareLate(_) => more == if p.state == Collecting then 1 else 0
      case JoinLate(l, r) =>
        more == if r in p.names.routes || Admission(p, cfg, r.verb, r.path) != Added then 0
                else if l.name != "" && l.mode != Internal && TakesName(p, cfg, r, l.name) then 2
                else 1
      case DropLate => more == 0
      case Touch(changed) => more == if p.state == Collecting && changed then 1 else 0
      case Seal => more == if p.state == Sealed then 0 else 2
  {
    hide RouteConflict, ApplyPublicName, UpsertAdmission;
    match op
    case SetRouteName(r, name) =>
      if r in p.names.routes {
        NamingExactly(p.names, r, name, cfg.namePolicy);
      }
    case JoinLate(l, r) =>
      if r !in p.names.routes && Admission(p, cfg, r.verb, r.path) == Added {
        NamingExactly(NamedRoutes.AddRoute(p.names, r, ""), r, l.name, cfg.namePolicy);
      }
    case _ =>
  }

  // ---------------------------------------------------------------------
  // Initialization is a run
  // ---------------------------------------------------------------------

  lemma RunOne(cfg: Config, ops: seq<Op>, op: Op)
    ensures Run(cfg, ops + [op]) == Apply(Run(cfg, ops), cfg, op)
  {
    assert (ops + [op])[..|ops|] == ops;
  }

  /** Joining the late declarations takes registration operations and nothing else. */
  lemma {:induction false} JoinAllIsARun(cfg: Config, ops: seq<Op>, late: seq<LateRoute>, objects: seq<RouteDefinition?>)
    returns (more: seq<Op>)
    requires |objects| == |late|
    ensures JoinAll(Run(cfg, ops), cfg, late, objects).0 == Run(cfg, ops + more)
    decreases |late|
  {
    hide Apply, RegisterLate, Admission;
    if late == [] {
      more := [];
      assert ops + more == ops;
    } else {
      var last := |late| - 1;
      more := JoinAllIsARun(cfg, ops, late[..last], objects[..last]);
      var q, r := Run(cfg, ops + more), objects[last];
      if JoinAll(Run(cfg, ops), cfg, late, objects).0 != q {
        RunOne(cfg, ops + more, JoinLate(late[last], r));
        JoinLateRegisters(q, cfg, late[last], r);
        assert ops + more + [JoinLate(late[last], r)] == ops + (more + [JoinLate(late[last], r)]);
        more := more + [JoinLate(late[last], r)];
      }
    }
  }

  lemma JoinLateRegisters(p: Plan, cfg: Config, l: LateRoute, r: RouteDefinition)
    requires p.names.Labelled() && r !in p.names.routes
    ensures Apply(p, cfg, JoinLate(l, r)) == RegisterLate(p, cfg, l, r).0
  {
  }

  /** What every run keeps. */
  ghost predicate Orderly(p: Plan, cfg: Config) {
    && Lifecycle(p, cfg) && Agreement(p.names)
    && (cfg.adapter == HttpRouter || cfg.conflictPolicy != LogAndContinue ==> ConflictFree(p.Declared(), cfg))
    && (cfg.namePolicy != Replace ==> WellNamed(p.names))
  }

  lemma RunsAreOrderly(cfg: Config, ops: seq<Op>)
    ensures Orderly(Run(cfg, ops), cfg)
  {
    hide Run, Lifecycle, Agreement, ConflictFree, WellNamed;
    RunsKeepLifecycle(cfg, ops);
    if cfg.adapter == HttpRouter || cfg.conflictPolicy != LogAndContinue {
      RunsKeepConflictFree(cfg, ops);
    }
    if cfg.namePolicy != Replace {
      RunsKeepNames(cfg, ops);
    }
  }
}

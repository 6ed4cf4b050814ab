/** The registration root that routers of one server share, with the operations that
    change it in place. Each is proved against the plan function of the same name. */
module Router {
  import opened PathConflicts
  import opened Wrappers
  import opened Permutations
  import opened Routes
  import opened TableSorting
  import opened NamedRoutes
  import opened Registration
  import opened RouteValidation
  import opened Initialization

  datatype MutationOptions = MutationOptions(replaceMiddleware: bool, middlewareOnAddOnly: bool)
  {
    /** What a replaced route keeps in front of its new handler: its own middlewares, or
        those of the router that replaces it. */
    function Kept(own: seq<Link>, previous: seq<Link>): seq<Link> {
      if replaceMiddleware then own else previous
    }

    /** What an upsert appends to an existing route. */
    function Appended(given: seq<Link>): seq<Link> {
      if middlewareOnAddOnly then [] else given
    }
  }

  class RouterRoot {
    var state: RegistrationState
    var revision: nat
    var routes: seq<RouteDefinition>
    var mountedRoutes: seq<RouteDefinition>
    var namedRoutes: map<string, RouteDefinition>
    var namedRouteConflicts: set<RouteDefinition>
    var lateRoutes: seq<LateRoute>
    var deferredRoutes: seq<RouteDefinition>
    var deferredRegistered: bool
    ghost var ops: seq<Op>

    ghost function Labels(): (labels: map<RouteDefinition, Label>)
      reads this`routes, routes`name, routes`publicName, routes`nameMode
      ensures labels.Keys == set r | r in routes
    {
      map r | r in routes :: LabelOf(r)
    }

    ghost function NamesView(): (n: Names)
      reads this`routes, this`namedRoutes, this`namedRouteConflicts
      reads routes`name, routes`publicName, routes`nameMode
      ensures n.Labelled() && n.routes == routes
    {
      Names(routes, Labels(), namedRoutes, namedRouteConflicts)
    }

    ghost function PlanView(): (p: Plan)
      reads this, routes`name, routes`publicName, routes`nameMode
      ensures p.names.Labelled()
    {
      Plan(state, revision, NamesView(), mountedRoutes, deferredRoutes, deferredRegistered, lateRoutes)
    }

    /** The operations the root went through lead to its plan. */
    ghost predicate Follows(cfg: Config)
      reads this, routes`name, routes`publicName, routes`nameMode
    {
      PlanView() == Registration.Run(cfg, ops)
    }

    constructor ()
      ensures PlanView() == EMPTY_PLAN && forall cfg :: Follows(cfg)
      ensures state == Collecting && revision == 0 && routes == [] && mountedRoutes == [] && lateRoutes == [] && namedRoutes == map[]
    {
      ops := [];
      state := Collecting;
      revision := 0;
      routes, mountedRoutes, deferredRoutes, lateRoutes := [], [], [], [];
      namedRoutes, namedRouteConflicts := map[], {};
      deferredRegistered := false;
    }

    // -------------------------------------------------------------------
    // Names
    // -------------------------------------------------------------------

    method RegisterNamedRoute(route: RouteDefinition, name: string, policy: NamePolicy) returns (ok: bool)
      modifies this`namedRoutes, this`namedRouteConflicts
      ensures (NamesView(), ok) == RegisterName(old(NamesView()), route, name, policy)
    {
      if name !in namedRoutes || namedRoutes[name] == route {
        namedRoutes := namedRoutes[name := route];
        return true;
      }
      if namedRoutes[name].path == route.path {
        return true;
      }
      namedRouteConflicts := namedRouteConflicts + {route};
      if policy != NamePolicy.Replace {
        return false;
      }
      namedRoutes := namedRoutes[name := route];
      namedRouteConflicts := namedRouteConflicts - {route};
      assert NamesView().conflicts == old(NamesView()).conflicts - {route};
      return true;
    }

    method RemovePublicRouteBinding(route: RouteDefinition, name: string)
      modifies this`namedRoutes
      ensures NamesView() == RemoveBinding(old(NamesView()), route, name)
    {
      if name == "" || name !in namedRoutes || namedRoutes[name] != route {
        return;
      }
      ghost var labels := NamesView().labels;
      for i := 0 to |routes|
        invariant namedRoutes == old(namedRoutes)
        invariant FirstHolder(routes, labels, route, name) == FirstHolder(routes[i..], labels, route, name)
      {
        var candidate := routes[i];
        assert routes[i..][0] == candidate && routes[i..][1..] == routes[i + 1..];
        if candidate != route && LabelOf(candidate).EffectivePublicName() == name {
          namedRoutes := namedRoutes[name := candidate];
          return;
        }
      }
      namedRoutes := namedRoutes - {name};
    }

    method ApplyPublicRouteName(route: RouteDefinition, name: string, policy: NamePolicy) returns (ok: bool)
      requires route in routes
      modifies this`namedRoutes, this`namedRouteConflicts, route`name, route`publicName, route`nameMode
      ensures (NamesView(), ok) == ApplyPublicName(old(NamesView()), route, name, policy)
      ensures ok ==> route.name == name && route.publicName == name && route.nameMode == Public
      ensures !ok ==> route.name == old(route.name) && route.publicName == old(route.publicName) && route.nameMode == old(route.nameMode)
    {
      var oldName := LabelOf(route).EffectivePublicName();
      if name == "" {
        RemovePublicRouteBinding(route, oldName);
        WriteLabel(route, Label("", "", Public));
        return true;
      }
      ok := RegisterNamedRoute(route, name, policy);
      if !ok {
        return;
      }
      if oldName != "" && oldName != name {
        RemovePublicRouteBinding(route, oldName);
      }
      WriteLabel(route, Label(name, name, Public));
    }

    /** Writes the three naming fields and forgets an earlier refusal. */
    method WriteLabel(route: RouteDefinition, given: Label)
      requires route in routes
      modifies this`namedRouteConflicts, route`name, route`publicName, route`nameMode
      ensures NamesView() == (var n := old(NamesView()); n.(labels := n.labels[route := given], conflicts := n.conflicts - {route}))
      ensures LabelOf(route) == given
    {
      hide Labels, LabelOf;
      WriteFields(route, given);
      namedRouteConflicts := namedRouteConflicts - {route};
    }

    method WriteFields(route: RouteDefinition, given: Label)
      requires route in routes
      modifies route`name, route`publicName, route`nameMode
      ensures NamesView() == (var n := old(NamesView()); n.(labels := n.labels[route := given]))
      ensures LabelOf(route) == given
    {
      route.publicName := given.publicName;
      route.name := given.name;
      route.nameMode := given.mode;
      assert Labels() == old(Labels())[route := given];
    }

    method ApplyInternalRouteName(route: RouteDefinition, name: string)
      requires route in routes
      modifies route`name, route`publicName, route`nameMode
      ensures NamesView() == ApplyInternalName(old(NamesView()), route, name)
      ensures route.name == name && route.nameMode == Internal
      ensures route.publicName == if old(route.publicName) == name then "" else old(route.publicName)
    {
      ghost var before := NamesView();
      assert before.labels[route] == LabelOf(route);
      hide Labels, NamesView;
      WriteFields(route, Label(name, if route.publicName == name then "" else route.publicName, Internal));
    }

    method NamePublicly(route: RouteDefinition, name: string, cfg: Config) returns (outcome: Outcome)
      requires route in routes
      modifies this`namedRoutes, this`namedRouteConflicts, this`revision, route`name, route`publicName, route`nameMode
      ensures (PlanView(), outcome) == Rename(old(PlanView()), cfg, route, name)
      ensures outcome == Panicked <==> old(state) != Collecting
      ensures outcome == Added ==> route.name == name && route.publicName == name && route.nameMode == Public
      ensures outcome != Added ==>
        route.name == old(route.name) && route.publicName == old(route.publicName) && route.nameMode == old(route.nameMode)
      ensures revision == old(revision) + if outcome == Added then 1 else 0
    {
      hide NamesView, Labels, ApplyPublicName;
      if state != Collecting {
        return Panicked;
      }
      var ok := ApplyPublicRouteName(route, name, cfg.namePolicy);
      if !ok {
        return Rejected;
      }
      revision := revision + 1;
      return Added;
    }

    /** SetName on a declared route. */
    method SetPublicRouteName(route: RouteDefinition, name: string, cfg: Config) returns (outcome: Outcome)
      requires route in routes
      modifies this`namedRoutes, this`namedRouteConflicts, this`revision, this`ops, route`name, route`publicName, route`nameMode
      ensures (PlanView(), outcome) == Rename(old(PlanView()), cfg, route, name)
      ensures outcome == Panicked <==> old(state) != Collecting
      ensures outcome == Added ==> route.name == name && route.publicName == name && route.nameMode == Public
      ensures outcome != Added ==>
        route.name == old(route.name) && route.publicName == old(route.publicName) && route.nameMode == old(route.nameMode)
      ensures revision == old(revision) + if outcome == Added then 1 else 0
      ensures old(Follows(cfg)) ==> Follows(cfg)
    {
      hide Rename, NamesView, Labels, Registration.Run;
      ghost var before := PlanView();
      outcome := NamePublicly(route, name, cfg);
      RunOne(cfg, ops, SetRouteName(route, name));
      ops := ops + [SetRouteName(route, name)];
    }

    /** GetRoute: a name leads to a declared route that carries it, whenever one does. */
    method GetRoute(name: string) returns (route: RouteDefinition?)
      requires Agreement(NamesView())
      ensures route == null <==> name == "" || forall r :: r in routes ==> LabelOf(r).EffectivePublicName() != name
      ensures route != null ==> route in routes && LabelOf(route).EffectivePublicName() == name
    {
      assert forall r :: r in routes ==> NamesView().PublicName(r) == LabelOf(r).EffectivePublicName();
      route := if name in namedRoutes then namedRoutes[name] else null;
    }

    // -------------------------------------------------------------------
    // Declaring routes
    // -------------------------------------------------------------------

    method DetectRouteConflict(verb: HttpMethod, path: string, cfg: Config) returns (conflict: Option<Conflict>)
      ensures conflict == RouteConflict(Endpoints(routes), verb, path, cfg)
    {
      hide PathConflict;
      for i := 0 to |routes|
        invariant RouteConflict(Endpoints(routes), verb, path, cfg) == RouteConflict(Endpoints(routes[i..]), verb, path, cfg)
      {
        assert Endpoints(routes[i..])[0] == routes[i].AsEndpoint();
        assert Endpoints(routes[i..])[1..] == Endpoints(routes[i + 1..]);
        if routes[i].verb == verb {
          if routes[i].path == path {
            return Some(Conflict(DuplicateRoute, -1, "", ""));
          }
          conflict := DetectPathConflict(routes[i].path, path, cfg.pathMode, cfg.enforceCatchAll);
          if conflict.Some? {
            return;
          }
        }
      }
      conflict := None;
    }

    /** chainHandlers builds the chain from the final handler up. */
    method ChainHandlers(chain: Chain, routeName: string) returns (links: seq<Link>)
      ensures links == chain.Links(routeName) == chain.middlewares + [Link(routeName, chain.handler)]
    {
      links := [Link(routeName, chain.handler)];
      for i := |chain.middlewares| downto 0
        invariant links == chain.middlewares[i..] + [Link(routeName, chain.handler)]
      {
        links := [chain.middlewares[i]] + links;
      }
    }

    method NewRoute(verb: HttpMethod, path: string, internalName: string, chain: Chain) returns (route: RouteDefinition)
      ensures fresh(route) && route.verb == verb && route.path == path
      ensures LabelOf(route) == if internalName == "" then UNNAMED else InternalLabel(UNNAMED, internalName)
      ensures route.middlewares == chain.middlewares && route.handlers == chain.Links(internalName)
    {
      var links := ChainHandlers(chain, internalName);
      route := new RouteDefinition(verb, path, chain.middlewares, links);
      if internalName != "" {
        route.name := internalName;
        route.nameMode := Internal;
      }
    }

    /** addRoute and routeRegistration: one new route object, deferred or mounted. */
    method AddRoute(verb: HttpMethod, path: string, internalName: string, chain: Chain, cfg: Config)
      returns (route: RouteDefinition)
      modifies this`routes, this`revision, this`deferredRoutes, this`mountedRoutes
      ensures fresh(route) && route.verb == verb && route.path == path
      ensures route.middlewares == chain.middlewares && route.handlers == chain.Links(internalName)
      ensures route !in old(routes) && PlanView() == AddAndMount(old(PlanView()), cfg, route, internalName)
      ensures LabelOf(route) == NamedByRouter(internalName) && revision == old(revision) + 1
    {
      hide NamedRoutes.AddRoute, NamesView, Labels, Names.Labelled;
      route := CreateRoute(verb, path, internalName, chain);
      ghost var names := NamesView();
      MountOrDefer(route, cfg);
      revision := revision + 1;
      assert NamesView() == names;
    }

    method CreateRoute(verb: HttpMethod, path: string, internalName: string, chain: Chain) returns (route: RouteDefinition)
      modifies this`routes
      ensures fresh(route) && route.verb == verb && route.path == path && route !in old(routes)
      ensures route.middlewares == chain.middlewares && route.handlers == chain.Links(internalName)
      ensures NamesView() == NamedRoutes.AddRoute(old(NamesView()), route, internalName)
      ensures LabelOf(route) == NamedByRouter(internalName)
    {
      hide NamedRoutes.AddRoute, NamesView, Labels;
      route := NewRoute(verb, path, internalName, chain);
      AppendRoute(route, internalName);
    }

    method AppendRoute(route: RouteDefinition, ghost internalName: string)
      requires route !in routes
      requires LabelOf(route) == if internalName == "" then UNNAMED else InternalLabel(UNNAMED, internalName)
      modifies this`routes
      ensures NamesView() == NamedRoutes.AddRoute(old(NamesView()), route, internalName)
    {
      routes := routes + [route];
      assert Labels() == old(Labels())[route := LabelOf(route)];
    }

    /** routeRegistration, and recordMounted where routes are mounted at once. */
    method MountOrDefer(route: RouteDefinition, cfg: Config)
      modifies this`deferredRoutes, this`mountedRoutes
      ensures cfg.adapter == Fiber && cfg.orderBySpecificity && !deferredRegistered ==>
        deferredRoutes == old(deferredRoutes) + [route] && mountedRoutes == old(mountedRoutes)
      ensures !(cfg.adapter == Fiber && cfg.orderBySpecificity && !deferredRegistered) ==>
        deferredRoutes == old(deferredRoutes) && mountedRoutes == old(mountedRoutes) + [route]
    {
      if cfg.adapter == Fiber && cfg.orderBySpecificity && !deferredRegistered {
        deferredRoutes := deferredRoutes + [route];
      } else {
        mountedRoutes := mountedRoutes + [route];
      }
    }

    /** What a declaration does before it counts as an operation of its own. */
    method Admit(verb: HttpMethod, path: string, internalName: string, chain: Chain, cfg: Config)
      returns (route: RouteDefinition?, outcome: Outcome)
      modifies this`routes, this`revision, this`deferredRoutes, this`mountedRoutes
      ensures outcome == Admission(old(PlanView()), cfg, verb, path)
      ensures outcome != Added ==> route == null && PlanView() == old(PlanView())
      ensures outcome == Added ==> route != null && fresh(route) && route.AsEndpoint() == Endpoint(verb, path)
      ensures outcome == Added ==> route.middlewares == chain.middlewares && route.handlers == chain.Links(internalName)
      ensures outcome == Added ==> route !in old(routes) && PlanView() == Declare(old(PlanView()), cfg, route, internalName).0
      ensures outcome == Added ==> LabelOf(route) == NamedByRouter(internalName) && revision == old(revision) + 1
    {
      hide NamesView, Labels, RouteConflict, AddAndMount, LabelOf;
      if state != Collecting {
        return null, Panicked;
      }
      var conflict := DetectRouteConflict(verb, path, cfg);
      if conflict.Some? && !cfg.MountsConflicts() {
        return null, if cfg.conflictPolicy == Panic then Panicked else Skipped;
      }
      route := AddRoute(verb, path, internalName, chain, cfg);
      outcome := Added;
    }

    /** Handle, handleFull and WebSocket. */
    method Handle(verb: HttpMethod, path: string, internalName: string, chain: Chain, cfg: Config)
      returns (route: RouteDefinition?, outcome: Outcome)
      modifies this`routes, this`revision, this`deferredRoutes, this`mountedRoutes, this`ops
      ensures outcome == Admission(old(PlanView()), cfg, verb, path)
      ensures outcome != Added ==> route == null && PlanView() == old(PlanView())
      ensures outcome == Added ==> route != null && fresh(route) && route.AsEndpoint() == Endpoint(verb, path)
      ensures outcome == Added ==> route.middlewares == chain.middlewares && route.handlers == chain.Links(internalName)
      ensures outcome == Added ==> route !in old(routes) && PlanView() == Declare(old(PlanView()), cfg, route, internalName).0
      ensures outcome == Added ==> LabelOf(route) == NamedByRouter(internalName) && revision == old(revision) + 1
      ensures old(Follows(cfg)) ==> Follows(cfg)
    {
      hide Declare, Admission, NamesView, Labels, Registration.Run;
      route, outcome := Admit(verb, path, internalName, chain, cfg);
      if outcome == Added {
        RunOne(cfg, ops, Op.Handle(route, internalName));
        ops := ops + [Op.Handle(route, internalName)];
      }
    }

    /** The first exact match receives a new handler behind its own middlewares, or the
        router's, and any further ones; nothing else about any route changes. */
    method TryReplace(verb: HttpMethod, path: string, chain: Chain, own: seq<Link>, options: MutationOptions, ghost cfg: Config)
      returns (route: RouteDefinition?, outcome: Outcome)
      modifies this`revision, this`ops, routes`middlewares, routes`handlers
      ensures (PlanView(), outcome) == ReplaceRoute(old(PlanView()), Endpoint(verb, path))
      ensures outcome == Replaced <==> old(state) == Collecting && exists r :: r in routes && r.AsEndpoint() == Endpoint(verb, path)
      ensures revision == old(revision) + if outcome == Replaced then 1 else 0
      ensures outcome == Replaced <==> route != null
      ensures route != null ==> route in routes && route.AsEndpoint() == Endpoint(verb, path)
      ensures route != null && options.replaceMiddleware ==> route.middlewares == own + chain.middlewares
      ensures route != null && !options.replaceMiddleware ==> route.middlewares == old(route.middlewares) + chain.middlewares
      ensures route != null ==> route.handlers == route.middlewares + [Link(route.name, chain.handler)]
      ensures forall r :: r in routes && r != route ==>
        r.middlewares == old(r.middlewares) && r.handlers == old(r.handlers)
      ensures old(Follows(cfg)) ==> Follows(cfg)
    {
      hide NamesView, Labels, Registration.Run;
      if state != Collecting {
        return null, Rejected;
      }
      route := FindExact(verb, path);
      if route == null {
        return null, Rejected;
      }
      ReplaceChain(route, options.Kept(own, route.middlewares) + chain.middlewares, chain.handler, cfg);
      outcome := Replaced;
    }

    /** A new chain for one declared route: a revision, and one operation of the run. */
    method ReplaceChain(route: RouteDefinition, middlewares: seq<Link>, handler: string, ghost cfg: Config)
      requires state == Collecting && route in routes
      modifies this`revision, this`ops, route`middlewares, route`handlers
      ensures route.middlewares == middlewares && route.handlers == Chain(middlewares, handler).Links(route.name)
      ensures PlanView() == old(PlanView()).(revision := old(revision) + 1)
      ensures old(Follows(cfg)) ==> Follows(cfg)
    {
      hide NamesView, Labels, Registration.Run;
      var links := ChainHandlers(Chain(middlewares, handler), route.name);
      RunOne(cfg, ops, Op.TryReplace(route.AsEndpoint()));
      ops := ops + [Op.TryReplace(route.AsEndpoint())];
      route.middlewares := middlewares;
      route.handlers := links;
      revision := revision + 1;
    }

    method FindExact(verb: HttpMethod, path: string) returns (route: RouteDefinition?)
      ensures route == null <==> Endpoint(verb, path) !in Endpoints(routes)
      ensures route != null ==> route in routes && route.AsEndpoint() == Endpoint(verb, path)
    {
      for i := 0 to |routes|
        invariant forall k :: 0 <= k < i ==> routes[k].AsEndpoint() != Endpoint(verb, path)
      {
        if routes[i].verb == verb && routes[i].path == path {
          assert Endpoints(routes)[i] == Endpoint(verb, path);
          return routes[i];
        }
      }
      route := null;
    }

    /** Replace an exact match, or add the route unless it conflicts. */
    method TryUpsert(verb: HttpMethod, path: string, chain: Chain, own: seq<Link>, options: MutationOptions, cfg: Config)
      returns (route: RouteDefinition?, outcome: Outcome)
      modifies this`routes, this`revision, this`deferredRoutes, this`mountedRoutes, this`ops
      modifies routes`middlewares, routes`handlers
      ensures outcome == UpsertAdmission(old(PlanView()), cfg, verb, path)
      ensures outcome == Rejected ==> route == null && PlanView() == old(PlanView())
      ensures outcome == Replaced ==> route != null && route in old(routes) && route.AsEndpoint() == Endpoint(verb, path)
      ensures outcome == Replaced ==> PlanView() == old(PlanView()).(revision := old(revision) + 1)
      ensures outcome == Replaced && !options.middlewareOnAddOnly ==>
        route.middlewares == (if options.replaceMiddleware then own else old(route.middlewares)) + chain.middlewares
      ensures outcome == Replaced && options.middlewareOnAddOnly ==>
        route.middlewares == if options.replaceMiddleware then own else old(route.middlewares)
      ensures outcome == Replaced ==> route.handlers == route.middlewares + [Link(route.name, chain.handler)]
      ensures outcome == Added ==> route != null && fresh(route) && route.AsEndpoint() == Endpoint(verb, path)
      ensures outcome == Added ==> route.middlewares == own + chain.middlewares
      ensures outcome == Added ==> route.handlers == route.middlewares + [Link("", chain.handler)]
      ensures outcome == Added ==> PlanView() == Upsert(old(PlanView()), cfg, route).0
      ensures outcome == Added ==> LabelOf(route) == NamedByRouter("")
      ensures revision == old(revision) + if outcome == Rejected then 0 else 1
      ensures forall r :: r in old(routes) && r != route ==>
        r.middlewares == old(r.middlewares) && r.handlers == old(r.handlers)
      ensures old(Follows(cfg)) ==> Follows(cfg)
    {
      hide NamesView, Labels, Registration.Run, RouteConflict, UpsertAdmission, Upsert;
      var decided;
      route, decided := FindUpsert(verb, path, cfg);
      outcome := decided;
      if outcome == Replaced {
        ReplaceChain(route, options.Kept(own, route.middlewares) + options.Appended(chain.middlewares), chain.handler, cfg);
      } else if outcome == Added {
        route := AddUpserted(verb, path, Chain(own + chain.middlewares, chain.handler), cfg);
      }
    }

    /** The exact match of an upsert, and what becomes of it. */
    method FindUpsert(verb: HttpMethod, path: string, cfg: Config) returns (route: RouteDefinition?, outcome: Outcome)
      ensures outcome == UpsertAdmission(PlanView(), cfg, verb, path)
      ensures outcome == Replaced <==> route != null
      ensures route != null ==> state == Collecting && route in routes && route.AsEndpoint() == Endpoint(verb, path)
    {
      hide NamesView, Labels;
      if state != Collecting {
        return null, Rejected;
      }
      route := FindExact(verb, path);
      if route != null {
        return route, Replaced;
      }
      var conflict := DetectRouteConflict(verb, path, cfg);
      outcome := if conflict.Some? && !cfg.MountsConflicts() then Rejected else Added;
    }

    method AddUpserted(verb: HttpMethod, path: string, chain: Chain, cfg: Config) returns (route: RouteDefinition)
      requires UpsertAdmission(PlanView(), cfg, verb, path) == Added
      modifies this`routes, this`revision, this`deferredRoutes, this`mountedRoutes, this`ops
      ensures fresh(route) && route !in old(routes) && route.AsEndpoint() == Endpoint(verb, path)
      ensures route.middlewares == chain.middlewares && route.handlers == chain.Links("")
      ensures PlanView() == Upsert(old(PlanView()), cfg, route).0
      ensures LabelOf(route) == NamedByRouter("") && revision == old(revision) + 1
      ensures old(Follows(cfg)) ==> Follows(cfg)
    {
      hide NamesView, Labels, Registration.Run, UpsertAdmission, AddAndMount;
      ghost var before := PlanView();
      route := AddRoute(verb, path, "", chain, cfg);
      UpsertIsRun(before, cfg, ops, route);
      ops := ops + [Op.TryUpsert(route)];
    }

    // -------------------------------------------------------------------
    // Late declarations and finalization
    // -------------------------------------------------------------------

    method AddLateRoute(late: LateRoute, ghost cfg: Config) returns (outcome: Outcome)
      modifies this`lateRoutes, this`revision, this`ops
      ensures outcome == if old(state) == Collecting then Added else Panicked
      ensures PlanView() == if outcome == Panicked then old(PlanView())
                        else old(PlanView()).(late := old(lateRoutes) + [late], revision := old(revision) + 1)
      ensures old(Follows(cfg)) ==> Follows(cfg)
    {
      hide NamesView, Labels, Registration.Run;
      if state != Collecting {
        return Panicked;
      }
      RunOne(cfg, ops, DeclareLate(late));
      ops := ops + [DeclareLate(late)];
      lateRoutes := lateRoutes + [late];
      revision := revision + 1;
      outcome := Added;
    }

    /** One turn of the loop in registerLateRoutes. */
    method RegisterLateRoute(late: LateRoute, cfg: Config) returns (route: RouteDefinition?, outcome: Outcome)
      modifies this`routes, this`revision, this`deferredRoutes, this`mountedRoutes, this`namedRoutes, this`namedRouteConflicts
      ensures outcome == Admission(old(PlanView()), cfg, late.verb, late.path)
      ensures outcome != Added ==> PlanView() == old(PlanView())
      ensures outcome == Added ==> route != null && fresh(route) && route !in old(routes)
      ensures outcome == Added ==> route.AsEndpoint() == Endpoint(late.verb, late.path)
      ensures outcome == Added ==> route.handlers == late.chain.Links("")
      ensures outcome == Added ==> PlanView() == RegisterLate(old(PlanView()), cfg, late, route).0
      ensures outcome == Added ==> routes == old(routes) + [route]
      ensures outcome != Added ==> route == null
    {
      hide NamesView, Labels, Admission;
      route, outcome := Admit(late.verb, late.path, "", late.chain, cfg);
      if outcome == Added && late.name != "" {
        if late.mode == Internal {
          ApplyInternalRouteName(route, late.name);
        } else {
          var named := NamePublicly(route, late.name, cfg);
        }
      }
    }

    /** registerLateRoutes; ok is false when a declaration panicked, and then the late
        declarations stay where they are. */
    method RegisterLateRoutes(cfg: Config) returns (ok: bool, ghost objects: seq<RouteDefinition?>)
      modifies this`routes, this`revision, this`deferredRoutes, this`mountedRoutes, this`namedRoutes, this`namedRouteConflicts, this`lateRoutes
      ensures |objects| <= |old(lateRoutes)| && (ok ==> |objects| == |old(lateRoutes)|)
      ensures var (p, finished) := JoinAll(old(PlanView()), cfg, old(lateRoutes)[..|objects|], objects);
              ok == finished && PlanView() == if ok then p.(late := []) else p
      ensures forall i :: 0 <= i < |objects| && objects[i] != null ==>
        objects[i].verb == old(lateRoutes)[i].verb && objects[i].path == old(lateRoutes)[i].path
        && objects[i].handlers == old(lateRoutes)[i].chain.Links("")
    {
      hide RegisterLate, Admission, JoinAll, NamesView, Labels;
      ghost var start, late := PlanView(), lateRoutes;
      objects := [];
      NothingToJoin(start, cfg);
      for i := 0 to |lateRoutes|
        invariant lateRoutes == late && |objects| == i
        invariant forall r :: r in routes ==> r in old(routes) || fresh(r)
        invariant JoinAll(start, cfg, late[..i], objects) == (PlanView(), true)
        invariant forall k :: 0 <= k < i && objects[k] != null ==>
          objects[k].AsEndpoint() == Endpoint(late[k].verb, late[k].path) && objects[k].handlers == late[k].chain.Links("")
      {
        var route, outcome := RegisterLateRoute(lateRoutes[i], cfg);
        JoinOne(start, cfg, late[..i], late[i], objects, route);
        assert late[..i + 1] == late[..i] + [late[i]];
        objects := objects + [route];
        if outcome == Panicked {
          return false, objects;
        }
      }
      assert late[..|late|] == late;
      lateRoutes := [];
      ok := true;
    }

    /** registerDeferredRoutes: sort the deferred slice in place and mount it in that order. */
    method RegisterDeferredRoutes(cfg: Config)
      modifies this`deferredRoutes, this`mountedRoutes, this`deferredRegistered
      ensures PlanView() ==
        if cfg.adapter != Fiber || !cfg.orderBySpecificity || old(deferredRegistered) then old(PlanView())
        else old(PlanView()).(deferredRegistered := true, deferred := [],
          mounted := old(mountedRoutes) + Pick(old(deferredRoutes), SortedIndexes(Endpoints(old(deferredRoutes)))))
    {
      if cfg.adapter != Fiber || !cfg.orderBySpecificity || deferredRegistered {
        return;
      }
      hide SortedIndexes, Pick, NamesView, Labels;
      var sorted := SortedCopy(deferredRoutes);
      MountAll(sorted);
      deferredRegistered := true;
      deferredRoutes := [];
    }

    method MountAll(sorted: seq<RouteDefinition>)
      modifies this`mountedRoutes
      ensures mountedRoutes == old(mountedRoutes) + sorted
    {
      for i := 0 to |sorted|
        invariant mountedRoutes == old(mountedRoutes) + sorted[..i]
      {
        mountedRoutes := mountedRoutes + [sorted[i]];
      }
      assert sorted[..|sorted|] == sorted;
    }

    method SortedCopy(declared: seq<RouteDefinition>) returns (sorted: seq<RouteDefinition>)
      ensures sorted == Pick(declared, SortedIndexes(Endpoints(declared)))
    {
      hide SortedIndexes;
      var slots := new RouteDefinition[|declared|](i requires 0 <= i < |declared| => declared[i]);
      assert slots[..] == declared;
      SortRoutesBySpecificity(slots);
      sorted := slots[..];
    }

    /** ValidateRoutes, with the options of an adapter or those of the base router. Late
        declarations that have not joined yet are validated too. */
    method ValidateRoutes(o: Options) returns (ok: bool)
      ensures ok == PassesValidation(PlanView(), o)
    {
      hide PathErrors, NameErrors, Carriers, CollectedCarriers, CollectedTable, StandFor, NamesView, Labels;
      var collected, made := CollectRoutesForValidation(routes, lateRoutes);
      var errors := ValidateRouteDefinitions(collected, o);
      LabelsAreRead();
      CollectedEndpoints(routes, made, PlanView());
      CollectedNames(routes, made, PlanView());
      ok := errors == [] && (o.namePolicy == NamePolicy.Error ==> namedRouteConflicts == {});
    }

    lemma LabelsAreRead()
      ensures NamesView().routes == routes && NamesView().conflicts == namedRouteConflicts
      ensures forall r :: r in routes ==> NamesView().labels[r] == LabelOf(r)
    {
    }

    /** From beginFinalization to the deferred finishFinalization, once the late declarations
        have joined. A panic of strict validation passes through the deferred call. */
    method FinalizeRoutes(cfg: Config) returns (outcome: InitOutcome)
      modifies this`state, this`revision, this`deferredRoutes, this`mountedRoutes, this`deferredRegistered
      ensures (PlanView(), outcome) == FinishInit(old(PlanView()), cfg)
      ensures state == Sealed && revision == old(revision) + if old(state) == Sealed then 0 else 2
    {
      hide SortedIndexes, Pick, NamesView, Labels, PassesValidation;
      if state == Sealed {
        return Returned;
      }
      ghost var before := PlanView();
      state := Finalizing;
      revision := revision + 1;
      if cfg.strictRoutes {
        var ok := ValidateRoutes(OptionsOf(cfg));
        SealingKeepsValidation(before, PlanView(), cfg);
        if !ok {
          state := Sealed;
          revision := revision + 1;
          return ValidationPanic;
        }
      }
      RegisterDeferredRoutes(cfg);
      state := Sealed;
      revision := revision + 1;
      outcome := Returned;
    }

    /** The late declarations join the plan, which is then finalized, unless a panic
        intervenes. Short of a panic of strict validation this is a run of operations, after
        which the plan is as orderly as every run leaves it. */
    method Initialized(cfg: Config) returns (outcome: InitOutcome, ghost objects: seq<RouteDefinition?>)
      modifies this
      ensures |objects| <= |old(lateRoutes)| && (PlanView(), outcome) == Initialize(old(PlanView()), cfg, objects)
      ensures old(Follows(cfg)) && outcome != ValidationPanic ==> Follows(cfg) && Orderly(PlanView(), cfg)
      ensures old(Follows(cfg)) && outcome == Returned ==> state == Sealed && lateRoutes == []
    {
      hide Registration.Run, JoinAll, FinishInit, Orderly, NamesView, Labels;
      ghost var before := PlanView();
      var ok;
      ok, objects := RegisterLateRoutes(cfg);
      outcome := LatePanic;
      if ok {
        outcome := FinalizeRoutes(cfg);
      }
      assert (PlanView(), outcome) == Initialize(before, cfg, objects);
      if before == Registration.Run(cfg, ops) && outcome != ValidationPanic {
        ghost var more := InitIsARun(cfg, ops, objects);
        InitLeavesOrder(cfg, ops, objects);
        ops := ops + more;
      }
    }
  }

  /** An upsert that adds is an operation of its own. */
  lemma UpsertIsRun(p: Plan, cfg: Config, ops: seq<Op>, r: RouteDefinition)
    requires p.names.Labelled() && r !in p.names.routes
    ensures p == Registration.Run(cfg, ops) ==>
      Registration.Run(cfg, ops + [Op.TryUpsert(r)]) == Upsert(p, cfg, r).0
  {
    hide Registration.Run, UpsertAdmission;
    RunOne(cfg, ops, Op.TryUpsert(r));
  }

  // ---------------------------------------------------------------------
  // The adapter
  // ---------------------------------------------------------------------

  /** An adapter over its registration root, which it initializes once. */
  class Server {
    const root: RouterRoot
    const cfg: Config
    var initialized: bool

    constructor (cfg: Config)
      ensures this.cfg == cfg && !initialized && fresh(root) && root.PlanView() == EMPTY_PLAN && root.Follows(cfg)
    {
      this.cfg, initialized := cfg, false;
      root := new RouterRoot();
    }

    /** Init. Only one that returns makes the adapter initialized. */
    method Init() returns (outcome: InitOutcome, ghost objects: seq<RouteDefinition?>)
      modifies this`initialized, root
      ensures initialized == (outcome == Returned || old(initialized))
      ensures old(initialized) ==> outcome == Returned && root.PlanView() == old(root.PlanView())
      ensures !old(initialized) ==>
        |objects| <= |old(root.lateRoutes)| && (root.PlanView(), outcome) == Initialize(old(root.PlanView()), cfg, objects)
      ensures old(root.Follows(cfg)) && outcome != ValidationPanic ==> root.Follows(cfg) && Orderly(root.PlanView(), cfg)
      ensures old(root.Follows(cfg)) && !old(initialized) && outcome == Returned ==> root.state == Sealed && root.lateRoutes == []
    {
      hide Registration.Run, Initialize, Orderly, RouterRoot.NamesView, RouterRoot.Labels;
      if initialized {
        RunsAreOrderly(cfg, root.ops);
        return Returned, [];
      }
      outcome, objects := root.Initialized(cfg);
      initialized := outcome == Returned;
    }
  }
}

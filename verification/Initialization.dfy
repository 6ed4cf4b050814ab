/** What initializing an adapter does to the plan, and what a returning or panicking
    initialization leaves. */
module Initialization {
  import opened Permutations
  import opened Routes
  import opened TableSorting
  import opened Registration
  import opened RouteValidation

  datatype InitOutcome = Returned | LatePanic | ValidationPanic

  /** Init of an adapter that was not initialized yet, given the route objects made for the
      late declarations. A plan that fails strict validation is sealed all the same, because
      finishing the finalization is deferred, but its deferred routes are not mounted. */
  ghost function Initialize(p: Plan, cfg: Config, objects: seq<RouteDefinition?>): (result: (Plan, InitOutcome))
    requires p.names.Labelled() && |objects| <= |p.late|
    ensures result.0.names.Labelled()
  {
    var (q, joined) := JoinAll(p, cfg, p.late[..|objects|], objects);
    if !joined || |objects| < |p.late| then (q, LatePanic)
    else FinishInit(q.(late := []), cfg)
  }

  ghost function FinishInit(p: Plan, cfg: Config): (result: (Plan, InitOutcome))
    requires p.names.Labelled()
    ensures result.0.names.Labelled()
  {
    if p.state != Sealed && cfg.strictRoutes && !PassesValidation(p, OptionsOf(cfg))
    then (p.(state := Sealed, revision := p.revision + 2), ValidationPanic)
    else (Finalize(p, cfg), Returned)
  }

  lemma RunTwo(cfg: Config, ops: seq<Op>, a: Op, b: Op)
    ensures Run(cfg, ops + [a, b]) == Apply(Apply(Run(cfg, ops), cfg, a), cfg, b)
  {
    hide Apply;
    RunOne(cfg, ops, a);
    RunOne(cfg, ops + [a], b);
    assert ops + [a] + [b] == ops + [a, b];
  }

  /** Unless strict validation panics, an initialization is a run of registration operations. */
  lemma InitIsARun(cfg: Config, ops: seq<Op>, objects: seq<RouteDefinition?>) returns (more: seq<Op>)
    requires |objects| <= |Run(cfg, ops).late|
    requires Initialize(Run(cfg, ops), cfg, objects).1 != ValidationPanic
    ensures Initialize(Run(cfg, ops), cfg, objects).0 == Run(cfg, ops + more)
  {
    hide Run, JoinAll, Finalize, PassesValidation;
    var p := Run(cfg, ops);
    more := JoinAllIsARun(cfg, ops, p.late[..|objects|], objects);
    if Initialize(p, cfg, objects).1 == Returned {
      RunTwo(cfg, ops + more, DropLate, Seal);
      assert ops + more + [DropLate, Seal] == ops + (more + [DropLate, Seal]);
      more := more + [DropLate, Seal];
    }
  }

  /** After an Init that returns, the late declarations are gone and the plan is sealed; a
      sorting router has mounted exactly the specificity sort of everything declared, any
      other router everything in declaration order; the names agree, a router that refuses
      conflicts holds none, and a strict one has passed its validation. After an Init that
      panics over a late declaration the plan is as orderly as before. */
  lemma InitLeavesOrder(cfg: Config, ops: seq<Op>, objects: seq<RouteDefinition?>)
    requires |objects| <= |Run(cfg, ops).late|
    ensures var (q, outcome) := Initialize(Run(cfg, ops), cfg, objects);
      && (outcome != ValidationPanic ==> Orderly(q, cfg))
      && (outcome == ValidationPanic ==> cfg.strictRoutes && Run(cfg, ops).state != Sealed && q.state == Sealed)
      && (outcome == Returned ==>
            && q.state == Sealed && q.late == []
            && q.mounted == (if cfg.adapter == Fiber && cfg.orderBySpecificity
                             then Pick(q.names.routes, SortedIndexes(q.Declared())) else q.names.routes)
            && (cfg.strictRoutes && Run(cfg, ops).state == Collecting ==> PassesValidation(q, OptionsOf(cfg))))
  {
    hide Run, JoinAll, PassesValidation;
    var p := Run(cfg, ops);
    var (q, outcome) := Initialize(p, cfg, objects);
    JoiningKeepsState(p, cfg, p.late[..|objects|], objects);
    if outcome != ValidationPanic {
      var more := InitIsARun(cfg, ops, objects);
      RunsAreOrderly(cfg, ops + more);
      hide NamedRoutes.Agreement, ConflictFree, WellNamed;
      if outcome == Returned {
        var joined := JoinAll(p, cfg, p.late[..|objects|], objects).0.(late := []);
        FinalizeKeepsValidation(joined, cfg);
      }
    }
  }

  lemma FinalizeKeepsValidation(p: Plan, cfg: Config)
    requires p.names.Labelled()
    ensures PassesValidation(Finalize(p, cfg), OptionsOf(cfg)) == PassesValidation(p, OptionsOf(cfg))
    ensures Finalize(p, cfg).state == Sealed && Finalize(p, cfg).late == p.late
  {
    hide PathErrors, NameErrors;
  }

  /** Joining late declarations neither seals nor reopens a plan. */
  lemma {:induction false} JoiningKeepsState(p: Plan, cfg: Config, late: seq<LateRoute>, objects: seq<RouteDefinition?>)
    requires p.names.Labelled() && |objects| == |late|
    ensures JoinAll(p, cfg, late, objects).0.state == p.state
    decreases |late|
  {
    hide Admission, NamedRoutes.ApplyPublicName, NamedRoutes.AddRoute;
    if late != [] {
      JoiningKeepsState(p, cfg, late[..|late| - 1], objects[..|late| - 1]);
    }
  }

  /** A strict validation that panics leaves a sealed plan. For a sorting router this is not
      the plan it would have sealed: nothing was mounted, and no later Init will mount it. */
  lemma ValidationPanicLeavesUnmounted(cfg: Config, ops: seq<Op>, objects: seq<RouteDefinition?>, again: seq<RouteDefinition?>)
    requires |objects| <= |Run(cfg, ops).late| && again == []
    requires Initialize(Run(cfg, ops), cfg, objects).1 == ValidationPanic
    ensures var q := Initialize(Run(cfg, ops), cfg, objects).0;
      && q.state == Sealed && !PassesValidation(q, OptionsOf(cfg))
      && (Lifecycle(q, cfg) <==> !(cfg.adapter == Fiber && cfg.orderBySpecificity))
      && (cfg.adapter == Fiber && cfg.orderBySpecificity ==> q.mounted == [])
      && Initialize(q, cfg, again) == (q, Returned)
  {
    hide Run, JoinAll, PassesValidation;
    var p := Run(cfg, ops);
    var more := JoinAllIsARun(cfg, ops, p.late[..|objects|], objects);
    RunsKeepLifecycle(cfg, ops + more);
    hide NamedRoutes.Agreement;
    var joined := JoinAll(p, cfg, p.late[..|objects|], objects).0.(late := []);
    var q := Initialize(p, cfg, objects).0;
    SealingKeepsValidation(joined, q, cfg);
    NothingToJoin(q, cfg);
    assert q.late[..0] == [];
  }

  lemma SealingKeepsValidation(p: Plan, q: Plan, cfg: Config)
    requires p.names.Labelled() && q.names == p.names && q.late == p.late
    ensures PassesValidation(q, OptionsOf(cfg)) == PassesValidation(p, OptionsOf(cfg))
  {
  }
}

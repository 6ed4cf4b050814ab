/** The named-route table: which route answers to which public name. */
module NamedRoutes {
  import opened Wrappers
  import opened Routes

  // NamedRouteCollisionPolicy
  datatype NamePolicy = Replace | Skip | Error

  /** The naming fields of a route object. */
  datatype Label = Label(name: string, publicName: string, mode: RouteNameMode)
  {
    function EffectivePublicName(): string {
      if publicName != "" then publicName
      else if mode == Internal then ""
      else name
    }
  }

  function LabelOf(r: RouteDefinition): Label
    reads r`name, r`publicName, r`nameMode
  {
    Label(r.name, r.publicName, r.nameMode)
  }

  const UNNAMED := Label("", "", Unspecified)

  /** The declared routes with their names, the index from names to routes, and the
      routes whose last naming was refused. */
  datatype Names = Names(
    routes: seq<RouteDefinition>,
    labels: map<RouteDefinition, Label>,
    bindings: map<string, RouteDefinition>,
    conflicts: set<RouteDefinition>)
  {
    predicate Labelled() {
      (forall r :: r in labels ==> r in routes) && (forall r :: r in routes ==> r in labels)
    }

    function PublicName(r: RouteDefinition): string
      requires r in labels
    {
      labels[r].EffectivePublicName()
    }
  }

  const NO_NAMES := Names([], map[], map[], {})

  /** applyInternalRouteName, on the naming fields of one route. */
  function InternalLabel(given: Label, name: string): Label {
    Label(name, if given.publicName == name then "" else given.publicName, Internal)
  }

  function ApplyInternalName(n: Names, r: RouteDefinition, name: string): (m: Names)
    requires n.Labelled() && r in n.routes
    ensures m.Labelled() && m.routes == n.routes
  {
    n.(labels := n.labels[r := InternalLabel(n.labels[r], name)])
  }

  /** addRoute: the new route is unnamed, or carries a name of the router's own. */
  function AddRoute(n: Names, r: RouteDefinition, internalName: string): (m: Names)
    requires n.Labelled()
    ensures m.Labelled()
  {
    var given := if internalName == "" then UNNAMED else InternalLabel(UNNAMED, internalName);
    n.(routes := n.routes + [r], labels := n.labels[r := given])
  }

  /** registerNamedRoute, and whether the policy let the name through. */
  function RegisterName(n: Names, r: RouteDefinition, name: string, policy: NamePolicy): (Names, bool) {
    if name !in n.bindings || n.bindings[name] == r then
      (n.(bindings := n.bindings[name := r]), true)
    else if n.bindings[name].path == r.path then (n, true)
    else if policy == Replace then
      (n.(bindings := n.bindings[name := r], conflicts := n.conflicts - {r}), true)
    else (n.(conflicts := n.conflicts + {r}), false)
  }

  /** The first declared route other than r that carries the name. */
  function FirstHolder(routes: seq<RouteDefinition>, labels: map<RouteDefinition, Label>, r: RouteDefinition, name: string)
    : (holder: Option<RouteDefinition>)
    requires forall s :: s in routes ==> s in labels
    ensures holder.Some? ==>
      holder.value in routes && holder.value != r && labels[holder.value].EffectivePublicName() == name
    ensures holder.None? ==> forall s :: s in routes && s != r ==> labels[s].EffectivePublicName() != name
  {
    if routes == [] then None
    else if routes[0] != r && labels[routes[0]].EffectivePublicName() == name then Some(routes[0])
    else
      assert forall s :: s in routes ==> s == routes[0] || s in routes[1..];
      FirstHolder(routes[1..], labels, r, name)
  }

  /** removePublicRouteBinding: the name passes to another holder, or is dropped. */
  function RemoveBinding(n: Names, r: RouteDefinition, name: string): (m: Names)
    requires n.Labelled()
    ensures m == n.(bindings := m.bindings)
  {
    if name == "" || name !in n.bindings || n.bindings[name] != r then n
    else
      match FirstHolder(n.routes, n.labels, r, name)
      case Some(holder) => n.(bindings := n.bindings[name := holder])
      case None => n.(bindings := n.bindings - {name})
  }

  /** applyPublicRouteName, and whether it succeeded. */
  function ApplyPublicName(n: Names, r: RouteDefinition, name: string, policy: NamePolicy): (result: (Names, bool))
    requires n.Labelled() && r in n.routes
    ensures result.0.Labelled() && result.0.routes == n.routes
  {
    if name == "" then
      var released := RemoveBinding(n, r, n.PublicName(r));
      (released.(labels := released.labels[r := Label("", "", Public)], conflicts := released.conflicts - {r}), true)
    else
      var oldName := n.PublicName(r);
      var (registered, ok) := RegisterName(n, r, name, policy);
      if !ok then (registered, false)
      else
        var released := if oldName != "" && oldName != name then RemoveBinding(registered, r, oldName) else registered;
        (released.(labels := released.labels[r := Label(name, name, Public)], conflicts := released.conflicts - {r}), true)
  }

  /** A naming, by its fields: when it is refused, what it writes on the route and on no
      other, where the name leads afterwards, and which routes are remembered as refused. */
  lemma NamingExactly(n: Names, r: RouteDefinition, name: string, policy: NamePolicy)
    requires n.Labelled() && r in n.routes
    ensures var (m, ok) := ApplyPublicName(n, r, name, policy);
      var elsewhere := name != "" && name in n.bindings && n.bindings[name] != r && n.bindings[name].path != r.path;
      && (ok <==> !elsewhere || policy == Replace)
      && (!ok ==> m == n.(conflicts := n.conflicts + {r}))
      && m.routes == n.routes && m.labels.Keys == n.labels.Keys
      && (forall s :: s in n.labels && s != r ==> m.labels[s] == n.labels[s])
      && (ok ==> m.labels[r].name == name && m.labels[r].publicName == name && m.labels[r].mode == Public)
      && (ok ==> m.conflicts == n.conflicts - {r})
    ensures var m := ApplyPublicName(n, r, name, policy).0;
      name != "" && (name !in n.bindings || n.bindings[name] == r || (n.bindings[name].path != r.path && policy == Replace)) ==>
        name in m.bindings && m.bindings[name] == r
    ensures var m := ApplyPublicName(n, r, name, policy).0;
      name != "" && name in n.bindings && n.bindings[name] != r && n.bindings[name].path == r.path ==>
        name in m.bindings && m.bindings[name] == n.bindings[name]
  {
    hide FirstHolder;
  }

  lemma {:induction false} FirstHolderIsFirst(routes: seq<RouteDefinition>, labels: map<RouteDefinition, Label>,
                                              r: RouteDefinition, name: string, i: nat)
    requires forall s :: s in routes ==> s in labels
    requires i < |routes| && routes[i] != r && labels[routes[i]].EffectivePublicName() == name
    requires forall k :: 0 <= k < i ==> routes[k] == r || labels[routes[k]].EffectivePublicName() != name
    ensures FirstHolder(routes, labels, r, name) == Some(routes[i])
  {
    if i > 0 {
      FirstHolderIsFirst(routes[1..], labels, r, name, i - 1);
    }
  }

  /** Where a name that is given up leads afterwards: to the first other declared route that
      carries it, or nowhere. */
  lemma GivenUpNamePasses(n: Names, r: RouteDefinition, name: string, policy: NamePolicy, i: nat)
    requires n.Labelled() && r in n.routes && ApplyPublicName(n, r, name, policy).1
    requires var old_ := n.PublicName(r); old_ != "" && old_ != name && old_ in n.bindings && n.bindings[old_] == r
    requires i <= |n.routes|
    requires forall k :: 0 <= k < i ==> n.routes[k] == r || n.PublicName(n.routes[k]) != n.PublicName(r)
    ensures var m, old_ := ApplyPublicName(n, r, name, policy).0, n.PublicName(r);
      && (i < |n.routes| && n.routes[i] != r && n.PublicName(n.routes[i]) == old_ ==>
            old_ in m.bindings && m.bindings[old_] == n.routes[i])
      && (i == |n.routes| ==> old_ !in m.bindings)
  {
    hide FirstHolder;
    var old_ := n.PublicName(r);
    if i < |n.routes| && n.routes[i] != r && n.PublicName(n.routes[i]) == old_ {
      FirstHolderIsFirst(n.routes, n.labels, r, old_, i);
    } else if i == |n.routes| {
      var holder := FirstHolder(n.routes, n.labels, r, old_);
      if holder.Some? {
        var k :| 0 <= k < |n.routes| && n.routes[k] == holder.value;
      }
    }
  }

  // ---------------------------------------------------------------------
  // Agreement between the index and the names the routes carry
  // ---------------------------------------------------------------------

  /** Every binding leads to a declared route of that public name, and every public
      name carried by a declared route is bound. */
  ghost predicate Agreement(n: Names) {
    && n.Labelled()
    && (forall name :: name in n.bindings ==>
          name != "" && n.bindings[name] in n.routes && n.PublicName(n.bindings[name]) == name)
    && (forall r :: r in n.routes && n.PublicName(r) != "" ==> n.PublicName(r) in n.bindings)
  }

  lemma AddRouteKeepsAgreement(n: Names, r: RouteDefinition, internalName: string)
    requires Agreement(n) && r !in n.routes
    ensures Agreement(AddRoute(n, r, internalName))
  {
    var m := AddRoute(n, r, internalName);
    assert m.PublicName(r) == "";
    forall s | s in m.routes && m.PublicName(s) != ""
      ensures m.PublicName(s) in m.bindings
    {
      assert s in n.routes && n.PublicName(s) == m.PublicName(s);
    }
  }

  /** Agreement, except that the bindings may already say that r is called name. */
  ghost predicate AgreementBut(n: Names, r: RouteDefinition, name: string)
  {
    && n.Labelled() && r in n.routes
    && (forall b :: b in n.bindings ==>
          b != "" && n.bindings[b] in n.routes && (n.PublicName(n.bindings[b]) == b || (b == name && n.bindings[b] == r)))
    && (forall s :: s in n.routes && n.PublicName(s) != "" ==> n.PublicName(s) in n.bindings)
  }

  /** Removing a binding touches that one name, and hands it to another holder if there is one. */
  lemma RemoveBindingMeaning(n: Names, r: RouteDefinition, name: string)
    requires n.Labelled()
    ensures var m := RemoveBinding(n, r, name);
      && m == n.(bindings := m.bindings)
      && (forall b :: b != name ==> (b in m.bindings <==> b in n.bindings))
      && (forall b :: b != name && b in m.bindings ==> m.bindings[b] == n.bindings[b])
      && (name in m.bindings ==> name in n.bindings)
      && (name in m.bindings && name != "" && n.bindings[name] == r ==>
            m.bindings[name] in n.routes && m.bindings[name] != r && n.PublicName(m.bindings[name]) == name)
      && (name in n.bindings && (name == "" || n.bindings[name] != r) ==> m == n)
      && (forall s :: s in n.routes && s != r && n.PublicName(s) == name && name in n.bindings ==> name in m.bindings)
  {
  }

  lemma RenamingKeepsAgreement(n: Names, r: RouteDefinition, name: string, given: Label)
    requires AgreementBut(n, r, name) && given.EffectivePublicName() == name
    requires name != "" ==> name in n.bindings
    requires name != n.PublicName(r) && n.PublicName(r) != ""
    ensures var released := RemoveBinding(n, r, n.PublicName(r));
            Agreement(released.(labels := released.labels[r := given]))
  {
    var oldName := n.PublicName(r);
    RemoveBindingMeaning(n, r, oldName);
    var released := RemoveBinding(n, r, oldName);
    RelabelKeepsAgreement(released, r, name, given);
  }

  /** Once the old name no longer leads to r, r may take the new one. */
  lemma RelabelKeepsAgreement(n: Names, r: RouteDefinition, name: string, given: Label)
    requires n.Labelled() && r in n.routes && given.EffectivePublicName() == name
    requires name != "" ==> name in n.bindings
    requires forall b :: b in n.bindings ==> b != "" && n.bindings[b] in n.routes
    requires forall b :: b in n.bindings && n.bindings[b] != r ==> n.PublicName(n.bindings[b]) == b
    requires forall b :: b in n.bindings && n.bindings[b] == r ==> b == name
    requires forall s :: s in n.routes && s != r && n.PublicName(s) != "" ==> n.PublicName(s) in n.bindings
    ensures Agreement(n.(labels := n.labels[r := given]))
  {
    var m := n.(labels := n.labels[r := given]);
    assert m.PublicName(r) == name;
    assert forall s :: s in m.routes && s != r ==> m.PublicName(s) == n.PublicName(s);
  }

  lemma RegisterMeaning(n: Names, r: RouteDefinition, name: string, policy: NamePolicy)
    requires Agreement(n) && r in n.routes && name != ""
    ensures var (m, ok) := RegisterName(n, r, name, policy);
      && m == n.(bindings := m.bindings, conflicts := m.conflicts)
      && (!ok ==> m == n.(conflicts := n.conflicts + {r}))
      && (!ok <==> policy != Replace && name in n.bindings && n.bindings[name].path != r.path)
      && (ok ==> AgreementBut(m, r, name) && name in m.bindings)
      && (ok ==> m.bindings[name].path == r.path)
      && (ok && policy != Replace && name in n.bindings ==> n.bindings[name].path == r.path)
  {
  }

  lemma SameIndex(n: Names, m: Names)
    requires Agreement(n) && m == n.(conflicts := m.conflicts)
    ensures Agreement(m)
  {
    assert forall s :: s in n.routes ==> m.PublicName(s) == n.PublicName(s);
  }

  lemma ApplyPublicNameKeepsAgreement(n: Names, r: RouteDefinition, name: string, policy: NamePolicy)
    requires Agreement(n) && r in n.routes
    ensures Agreement(ApplyPublicName(n, r, name, policy).0)
  {
    var oldName := n.PublicName(r);
    var after := ApplyPublicName(n, r, name, policy).0;
    if name == "" {
      var given := Label("", "", Public);
      var released := RemoveBinding(n, r, oldName);
      if oldName != "" {
        RenamingKeepsAgreement(n, r, name, given);
      } else {
        RelabelKeepsAgreement(n, r, name, given);
      }
      SameIndex(released.(labels := released.labels[r := given]), after);
    } else {
      var (registered, ok) := RegisterName(n, r, name, policy);
      RegisterMeaning(n, r, name, policy);
      if ok {
        RenameRegistered(registered, r, oldName, name);
        var released := if oldName != "" && oldName != name then RemoveBinding(registered, r, oldName) else registered;
        SameIndex(released.(labels := released.labels[r := Label(name, name, Public)]), after);
      } else {
        SameIndex(n, after);
      }
    }
  }

  lemma RenameRegistered(n: Names, r: RouteDefinition, oldName: string, name: string)
    requires AgreementBut(n, r, name) && name in n.bindings && name != "" && oldName == n.PublicName(r)
    ensures var released := if oldName != "" && oldName != name then RemoveBinding(n, r, oldName) else n;
            Agreement(released.(labels := released.labels[r := Label(name, name, Public)]))
  {
    if oldName != "" && oldName != name {
      RenamingKeepsAgreement(n, r, name, Label(name, name, Public));
    } else {
      RelabelKeepsAgreement(n, r, name, Label(name, name, Public));
    }
  }

  /** An internal name disturbs the index exactly when it hides the public name under which
      the index knows this very route: the name is that public name, or the route carries
      no separate public name. Adapters give internal names to new routes only. */
  lemma InternalNameKeepsAgreement(n: Names, r: RouteDefinition, name: string)
    requires Agreement(n) && r in n.routes
    ensures Agreement(ApplyInternalName(n, r, name))
       <==> !(n.PublicName(r) != "" && n.bindings[n.PublicName(r)] == r
              && (n.labels[r].publicName == name || n.labels[r].publicName == ""))
  {
    var m := ApplyInternalName(n, r, name);
    assert forall s :: s in n.routes && s != r ==> m.PublicName(s) == n.PublicName(s);
    if m.PublicName(r) == n.PublicName(r) {
      forall s | s in m.routes && m.PublicName(s) != ""
        ensures m.PublicName(s) in m.bindings
      {
        assert m.PublicName(s) == n.PublicName(s);
      }
    }
  }

  // ---------------------------------------------------------------------
  // Policies that refuse a second path for a name
  // ---------------------------------------------------------------------

  /** Every route that carries a public name has the path of the route bound to it. */
  ghost predicate OnePathPerName(n: Names)
    requires Agreement(n)
  {
    forall r :: r in n.routes && n.PublicName(r) != "" ==> n.bindings[n.PublicName(r)].path == r.path
  }

  lemma ApplyPublicNameKeepsOnePath(n: Names, r: RouteDefinition, name: string, policy: NamePolicy)
    requires Agreement(n) && OnePathPerName(n) && r in n.routes && policy != Replace
    ensures Agreement(ApplyPublicName(n, r, name, policy).0) && OnePathPerName(ApplyPublicName(n, r, name, policy).0)
  {
    ApplyPublicNameKeepsAgreement(n, r, name, policy);
    var m := ApplyPublicName(n, r, name, policy).0;
    BoundNames(n, r, name, policy);
    forall s | s in m.routes && m.PublicName(s) != ""
      ensures m.bindings[m.PublicName(s)].path == s.path
    {
      var b := m.PublicName(s);
      var holder := m.bindings[b];
      assert m.PublicName(holder) == b;
      assert s != r ==> n.PublicName(s) == b && n.bindings[b].path == s.path;
      assert holder != r ==> n.PublicName(holder) == b && n.bindings[b].path == holder.path;
    }
  }

  /** Which names the routes carry after a naming, and where the new name leads. */
  lemma BoundNames(n: Names, r: RouteDefinition, name: string, policy: NamePolicy)
    requires Agreement(n) && r in n.routes
    ensures var (m, ok) := ApplyPublicName(n, r, name, policy);
      && m.Labelled() && m.routes == n.routes
      && (forall s :: s in n.routes && s != r ==> m.PublicName(s) == n.PublicName(s))
      && m.PublicName(r) == (if ok then name else n.PublicName(r))
      && (ok && name != "" ==> name in m.bindings && m.bindings[name].path == r.path)
      && (ok && name != "" && policy != Replace && name in n.bindings ==> n.bindings[name].path == r.path)
  {
    var oldName := n.PublicName(r);
    if name == "" {
      RemoveBindingMeaning(n, r, oldName);
    } else {
      RegisterMeaning(n, r, name, policy);
      RemoveBindingMeaning(RegisterName(n, r, name, policy).0, r, oldName);
    }
  }

  /** Under skip and error a naming is refused exactly when the name leads to another
      path, and a refused naming changes neither names nor bindings. */
  lemma RefusedNameChangesNothing(n: Names, r: RouteDefinition, name: string, policy: NamePolicy)
    requires Agreement(n) && r in n.routes
    ensures var (m, ok) := ApplyPublicName(n, r, name, policy);
            && (!ok <==> policy != Replace && name in n.bindings && n.bindings[name].path != r.path)
            && (!ok ==> m == n.(conflicts := n.conflicts + {r}))
  {
    if name != "" {
      RegisterMeaning(n, r, name, policy);
    }
  }

  // ---------------------------------------------------------------------
  // Whole runs
  // ---------------------------------------------------------------------

  datatype NameOp =
    | Add(route: RouteDefinition, internalName: string)
    | SetName(route: RouteDefinition, name: string, policy: NamePolicy)

  function Step(n: Names, op: NameOp): Names
    requires n.Labelled()
  {
    match op
    case Add(r, internalName) => if r in n.routes then n else AddRoute(n, r, internalName)
    case SetName(r, name, policy) => if r in n.routes then ApplyPublicName(n, r, name, policy).0 else n
  }

  function Run(ops: seq<NameOp>): (n: Names)
    ensures n.Labelled()
  {
    if ops == [] then NO_NAMES else Step(Run(ops[..|ops| - 1]), ops[|ops| - 1])
  }

  /** The index agrees with the names after any sequence of declaring, naming, renaming
      and unnaming, under any mixture of policies. */
  lemma {:induction false} RunsKeepAgreement(ops: seq<NameOp>)
    ensures Agreement(Run(ops))
  {
    if ops != [] {
      var before, op := Run(ops[..|ops| - 1]), ops[|ops| - 1];
      RunsKeepAgreement(ops[..|ops| - 1]);
      match op
      case Add(r, internalName) =>
        if r !in before.routes {
          AddRouteKeepsAgreement(before, r, internalName);
        }
      case SetName(r, name, policy) =>
        if r in before.routes {
          ApplyPublicNameKeepsAgreement(before, r, name, policy);
        }
    }
  }

  /** Without the replace policy a public name never comes to stand for two paths. */
  lemma {:induction false} RunsKeepOnePathPerName(ops: seq<NameOp>)
    requires forall k :: 0 <= k < |ops| && ops[k].SetName? ==> ops[k].policy != Replace
    ensures Agreement(Run(ops)) && OnePathPerName(Run(ops))
  {
    RunsKeepAgreement(ops);
    if ops != [] {
      var before, op := Run(ops[..|ops| - 1]), ops[|ops| - 1];
      RunsKeepOnePathPerName(ops[..|ops| - 1]);
      match op
      case Add(r, internalName) =>
        var after := Run(ops);
        forall s | s in after.routes && after.PublicName(s) != ""
          ensures after.bindings[after.PublicName(s)].path == s.path
        {
          assert s in before.routes ==> after.PublicName(s) == before.PublicName(s);
        }
      case SetName(r, name, policy) =>
        if r in before.routes {
          ApplyPublicNameKeepsOnePath(before, r, name, policy);
        }
    }
  }
}

# Model of the router toolkit's routing, streaming and message cores

This project models, in Dafny, the parts of a Go web-router toolkit whose behaviour is hard
to see from any one function, and proves what they promise.

- **Routing.** Route patterns are lists of static, `:param` and `*catch-all` segments. `Paths`
  and `Patterns` model how strings are cut into segments, which requests a pattern matches,
  and the syntactic containment test. `Specificity`, `RouteSorting` and `TableSorting` model
  the greedy stable order over strict containment and its in-place use on a route table;
  `Dispatch` models first-match dispatch and the shadow analysis; `PathConflicts` the conflict
  detection, and `SharedRequests` what it means for the requests themselves; `PatternRank`
  and `ReportedRoutes` the pattern httprouter reports for a request. `Permutations` holds the
  permutation theory they share.
- **Registration.** `Routes`, `NamedRoutes`, `Registration`, `RouteLints`, `RouteValidation`
  and `Initialization` model the shared registration root as a plan: declared, deferred and
  mounted routes, the lifecycle from collecting to sealed, the revision counter, the name
  index with its three collision policies, validation, and initialization. `Router` is the
  root as an object; each of its methods is proved to be the plan operation of the same name,
  and the ones callers use to keep the plan a run of such operations, so what is proved of
  runs holds of the object. Route objects are identified by reference, as the name index does.
- **Event stream.** `Scopes`, `ScopeKeys`, `Records` and `EventStream` model the replayable
  stream as a step system in which every section under the mutex and every channel operation
  of a pump is one step. `StreamInvariants` and `StreamDelivery` prove what every reachable
  state keeps; `Replays` and `Resume` what reconnecting clients see. `LiveStream` is the stream
  as an object, with loops over maps in arbitrary order, proved to take exactly those steps.
- **Smaller cores.** `Manifest` (manifest difference), `EventHistory` and `EventLog` (indexed
  bounded history), `BinaryCodec`, `Transfers` and `TransferManager` (binary messages and
  chunked uploads), `FlashMessages`, `FlashCookie` and `Flash` (flash messages in a cookie).
  `Decimal`, `QueryEscaping`, `StringOrder` and `Wrappers` are shared.

Go strings are sequences of characters that stand for bytes. A map read in arbitrary order is
a loop that picks any remaining key. A library sort is an insertion sort, and a uniqueness
lemma beside it says that any correct sort gives the same result. Time is an input.

Where a promise does not hold of the code, the code is kept and the exact condition is proved:

- the containment test misses some inclusions (`Patterns.ContainmentDecidesInclusion`);
- a star inside a segment can make it claim an inclusion that does not hold
  (`Patterns.ContainmentIsSoundExactly`);
- a catch-all outranks the path it starts at (`PatternRank.NarrowerOutranksExactly`), so
  httprouter reports the wrong pattern for a request to that path
  (`ReportedRoutes.MisreportedExactly`);
- a history cleanup that finds everything expired empties the indexes but keeps the events
  (`EventHistory.CleanupKeepsAgreementExactly`), until a later one leaves something
  (`EventHistory.CleanupRestoresAgreementExactly`);
- a history filter's client is ignored next to a type or a namespace, although its field is
  documented as a filter (`EventHistory.ClientIsHonouredExactly`);
- conflict detection lets a path and a catch-all that starts at it stand together, although
  the code's own matching gives both the same request
  (`Registration.HttpRouterRoutesShareExactly`);
- with catch-alls not enforced, conflict detection overlooks some overlaps
  (`PathConflicts.StrictConflictDecidesOverlap`);
- a strict validation that panics leaves a sorting router sealed with nothing mounted
  (`Initialization.ValidationPanicLeavesUnmounted`);
- an expired event added again while it is held can be lost from its indexes
  (`EventHistory.ExpiredEventAddedAgain`);
- a flash value with a NUL, or a key with a colon, does not survive the cookie
  (`FlashCookie.CookieRoundTrip`);
- an upload of an empty file never completes (`Transfers.EmptyUploadNeverCompletes`);
- a resume under a matcher that spans several buckets can lose records without a gap
  (`Replays.ResumeLosesExactlyTheEvicted`);
- an internal name that hides the bound public name breaks the name index, which adapters
  avoid by naming only new routes internally (`NamedRoutes.InternalNameKeepsAgreement`).

## Model

| member | source | states |
|---|---|---|
| Patterns.ContainmentIsSound | registration.go:225-282 | every request a contained, well-formed candidate accepts is accepted by the containing pattern too |
| Patterns.ContainmentIsSoundExactly | registration.go:225-282 | for any two patterns, a positive containment test is right exactly unless the first star of the candidate, wherever it stands in its segment, comes before that of the other pattern; one segment less is still right where every request of the candidate has one more segment anyway |
| Patterns.ContainmentDecidesInclusion | registration.go:225-282 | for well-formed patterns the syntactic test decides inclusion of request languages if and only if the pair is not of one exactly described shape: the first pattern spends a parameter on a segment that every request of the candidate must have, although the candidate does not spell it out, namely the one empty part of the root path, or the part a trimmed path needs after an empty segment or the root where the candidate has its catch-all |
| Patterns.InclusionDecided | httprouter.go:326-378 | inclusion of any two patterns, stars inside segments included, is the covering of the patterns cut at their first stars, or the forced segment |
| Patterns.RefusedRequest | httprouter.go:326-378 | where containment is refused outside that shape, a concrete request is built that the candidate accepts and the other pattern refuses |
| Patterns.ForcedSegmentIsIncluded | registration.go:229-259 | on that shape the inclusion holds although the test denies it |
| Patterns.ContainmentMissesAnInclusion | registration.go:229-259 | a concrete pair other than the root path on which the test misses an inclusion |
| Patterns.ContainmentNeedsWellFormedCandidates | route_conflicts.go:35-43 | a concrete pair on which a star inside a segment makes the test claim too much, the failing side of the exact condition for soundness |
| Patterns.ContainsReflexive | registration.go:229-259 | every path contains itself, under either trailing-slash setting |
| Patterns.ContainsTransitive | registration.go:229-282 | containment is transitive for all paths, under either trailing-slash setting |
| Patterns.ContainsMeaning | registration.go:229-282 | the early-exit scan is the same as covering every segment before the first catch-all |
| Patterns.ContainsWithExactly | registration.go:229-282 | with distinct trailing slashes containment also takes both paths, if longer than one character, to end in a slash or neither; without, it is the covering of segments alone |
| Patterns.TrailingSlashTwins | registration.go:229-282 | a path and the path with a slash more contain each other where trailing slashes are ignored, and neither contains the other where they are distinct |
| RouteSorting.ContainmentIsPreorder | route_specificity.go:28-46 | the containment graph built over any list of routes comes from a preorder, so strict containment has no cycles |
| Specificity.NeverStuck | route_specificity.go:47-73 | while a route is left one is eligible: the fallback of the ordering loop is never taken |
| Specificity.OrderIsLinearExtension | route_specificity.go:28-74 | the order is a permutation in which every strictly narrower route precedes the routes that contain it |
| Specificity.OrderIsLeastExtension | route_specificity.go:47-73 | among all such permutations it is the lexicographically least by declaration index |
| Specificity.EquivalentRoutesKeepDeclarationOrder | route_specificity.go:47-73 | routes that contain each other keep their declaration order |
| Specificity.CompliantListIsUnchanged | route_specificity.go:47-73 | a list that already complies is returned unchanged |
| Specificity.OrderIsIdempotent | route_specificity.go:47-73 | ordering an ordered list changes nothing |
| RouteSorting.StableContainmentOrder | route_specificity.go:28-74 | the method with indegree and emitted arrays returns the routes in that order |
| RouteSorting.BuildGraph | route_specificity.go:29-46 | the two arrays hold, for each route, the broader routes and the number of strictly narrower ones |
| RouteSorting.AddPair | route_specificity.go:34-44 | an edge and a count are added exactly for strict containment |
| RouteSorting.EmitEligible | route_specificity.go:47-73 | the emission loop picks the first eligible route each time and produces the whole order |
| RouteSorting.ReleaseDependents | route_specificity.go:66-72 | emitting a route lowers exactly the counts of the routes that strictly contain it |
| TableSorting.SortRoutesBySpecificity | route_specificity.go:3-22 | the slice is overwritten in place with the sorted table |
| TableSorting.WriteBack | route_specificity.go:15-21 | each slot receives the next ordered route of its own method |
| TableSorting.SortingPermutesWithinMethods | route_specificity.go:3-22 | no route is lost or doubled, and every slot keeps its method |
| TableSorting.SortedMethodPaths | route_specificity.go:3-22 | the routes of one method are its declared routes in containment order |
| TableSorting.SortedTableIsNarrowerFirst | route_specificity.go:3-22 | no route stands before a strictly narrower route of its method |
| TableSorting.NarrowerFirstIsUnchanged | route_specificity.go:3-22 | a table that already complies is unchanged |
| TableSorting.SortingIsIdempotent | route_specificity.go:3-22 | sorting twice is sorting once |
| Dispatch.DispatchPicksMostSpecific | route_specificity.go:3-22 | in a sorted table the first match has no strictly narrower matching route, for every request |
| Dispatch.DispatchMeaning | registration.go:153-195 | the route that answers is the first of the method whose pattern matches the path |
| Dispatch.DispatchPicksFewestRequests | route_specificity.go:3-22 | the same in terms of the requests the routes accept, off the one shape on which containment misses an inclusion |
| Dispatch.AnalyzeRouteShadows | registration.go:159-195 | exactly one finding for every shadowed route, in table order, each naming the first earlier route of the method that contains it |
| Dispatch.ReportedRouteIsUnreachable | registration.go:159-195 | first-match dispatch never answers with a route the analysis reports, if that route is well formed or the containment reported is not overclaimed by a star inside a segment |
| Dispatch.DistinctFindingsAreNoTwins | registration.go:159-195 | where trailing slashes are distinct no finding is about a path and the same path with a slash more |
| Dispatch.ShadowKindMeaning | registration.go:167-181 | each kind of finding in terms of the two paths: equal, one trailing slash apart, or what the first characters of the earlier one's segments say |
| Dispatch.SortedTableReportsOnlyEquivalentRoutes | registration.go:159-195 | after sorting only mutually containing pairs are reported, under either trailing-slash setting |
| PatternRank.CompareRouteSpecificity | route_specificity.go:76-105 | the loop computes the segment-by-segment comparison whose order properties the next rows prove |
| PatternRank.OutranksExactly | route_specificity.go:76-121 | a pattern ranks higher exactly if, where the two are first not alike, it goes on and the other has ended, or its segment is the stronger one: static, then parameter, then catch-all |
| PatternRank.OutranksIsTransitive | route_specificity.go:76-121 | ranking higher is transitive, for all patterns |
| PatternRank.NarrowerOutranksExactly | route_specificity.go:76-121 | a strictly narrower pattern ranks higher if and only if it does not stop exactly where the catch-all of the broader one begins with nothing to tell them apart before; there the broader one ranks higher |
| PatternRank.CatchAllOutranksItsRoot | httprouter.go:273-290 | the concrete exception: for a request to /files the pattern /files/*path outranks /files, although both match and the second is strictly narrower |
| PatternRank.GetRoutePattern | httprouter.go:273-290 | the reported route matches and no matching route outranks it; nothing is reported only if nothing matches |
| PatternRank.ReportedPatternIsMostSpecific | httprouter.go:273-290 | a pattern that does not outrank another is strictly narrower than it exactly if it stops where the catch-all of the other begins |
| ReportedRoutes.MisreportedExactly | httprouter.go:273-290 | for the table of any httprouter run, well formed for the method, and any request, some matching route is strictly narrower than the reported one exactly if two matching routes are a catch-all and a path that stops where it begins |
| ReportedRoutes.CatchAllIsReported | httprouter.go:273-290 | in that case the catch-all is the route that is reported |
| PathConflicts.DetectPathConflict | route_conflicts.go:49-127 | the scan with its first-index variables reports the conflict that comes first, by index and then by priority |
| PathConflicts.ReportMeaning | route_conflicts.go:49-127 | a reported conflict names the segments at its index: the first catch-all where they are enforced, else the first static segment beside a parameter in strict mode, else the first pair of parameters with no such segment anywhere |
| PathConflicts.ConflictIsSymmetric | route_conflicts.go:49-127 | exchanging the two routes reports the same index and reason with the segments exchanged |
| PathConflicts.StrictConflictDecidesOverlap | route_conflicts.go:49-127 | strict mode reports a conflict exactly when some request is served by both routes, catch-alls taking one or more segments, and they are not one static path; with enforcement of catch-alls switched off exactly the overlaps described by Overlooked go unreported |
| PathConflicts.PreferStaticConflictMeaning | route_conflicts.go:49-127 | prefer_static reports a conflict exactly for overlapping routes with a catch-all, less the overlooked ones when catch-alls are not enforced, or for mutually containing ones with a parameter |
| PathConflicts.PreferStaticConflictIsMutualContainment | route_conflicts.go:49-127 | without catch-alls prefer_static conflicts are exactly mutual containment with a parameter |
| SharedRequests.SharedRequestsExactly | httprouter.go:326-378 | by the code's own path matching, where a catch-all may take nothing, two routes other than the root share a request exactly if they overlap as conflict detection sees it, or one has just the segments before the catch-all of the other and no different static segment |
| SharedRequests.RootSharesExactly | httprouter.go:326-378 | which patterns share a request with the root path: the root, a leading catch-all, and one parameter up to the end or up to a catch-all |
| Router.RouterRoot.RegisterNamedRoute | router_base.go:286-337 | the index and the refused routes after registering a name, under each collision policy |
| Router.RouterRoot.RemovePublicRouteBinding | router_base.go:356-393 | the binding passes to the first other declared route of that name, or is dropped |
| Router.RouterRoot.ApplyPublicRouteName | router_base.go:225-252 | the whole naming state after naming, renaming or unnaming a route; a success leaves both names equal to the given one in public mode, a refusal leaves all three fields |
| Router.RouterRoot.SetPublicRouteName | router_base.go:254-273 | the lifecycle guard, the fields of the route after a success and after a refusal, and a new revision only for a success |
| Router.RouterRoot.ApplyInternalRouteName | router_base.go:275-284 | the internal name and mode are written, the public name goes if it is the same, and the index is left alone |
| Router.RouterRoot.GetRoute | router_base.go:526-535 | while the index agrees, a name leads to a declared route that carries it, and to none exactly when no route does |
| NamedRoutes.RunsKeepAgreement | router_base.go:225-252 | after any sequence of additions, namings, renamings and unnamings under any mixture of policies, every binding leads to a declared route of that public name and every public name carried is bound |
| NamedRoutes.RunsKeepOnePathPerName | router_base.go:312-337 | without the replace policy all routes that share a public name share one path |
| NamedRoutes.RefusedNameChangesNothing | router_base.go:286-337 | a naming is refused exactly when skip or error finds the name leading to another path, and then names and bindings stay as they were |
| NamedRoutes.NamingExactly | router_base.go:225-337 | a naming by its fields: when it is refused, the name and mode it writes on the route and on no other, where the name leads afterwards under each policy, and which routes are remembered as refused |
| NamedRoutes.GivenUpNamePasses | router_base.go:356-393 | a name that is given up leads to the first other declared route that carries it, or nowhere |
| NamedRoutes.ApplyPublicNameKeepsAgreement | router_base.go:225-252 | one naming keeps the agreement, rebinding to another holder included |
| NamedRoutes.InternalNameKeepsAgreement | router_base.go:275-284 | for any route, public or not yet named, giving an internal name breaks the agreement exactly when the index leads that route's public name to it and the internal name is that public name or the route has no separate public name |
| Router.RouterRoot.AddRoute | router_base.go:170-188 | a fresh route object with its handler chain is declared and mounted or deferred |
| Router.RouterRoot.ChainHandlers | router_base.go:122-135 | the loop from the last middleware up puts the middlewares in order before the handler |
| Router.RouterRoot.DetectRouteConflict | httprouter.go:731-749 | the first conflicting declared route of the method decides, a duplicate before its path conflict |
| Registration.AdmissionExactly | fiber.go:496-530 | a declaration panics, is skipped or is added, by state, by a duplicate or conflict with some declared route of the method, and by the policy and adapter in so many words: only Fiber under log-and-continue adds a conflict |
| Registration.UpsertAdmissionExactly | fiber.go:571-625 | an upsert replaces, is refused or adds, in the same terms |
| Registration.FirstConflictIsReported | fiber.go:330-354 | the first declared route of the method that is the same or conflicts decides what is reported |
| Registration.RevisionMeaning | router_base.go:36-78 | how many revisions each operation counts for: one for a route added or replaced, a naming that goes through or a late declaration, two for sealing, none for a refusal |
| Router.RouterRoot.Handle | httprouter.go:578-615 | a declaration is added with its handler chain, skipped or panics; what the plan is afterwards in each case, and that it stays a run of operations |
| Router.RouterRoot.TryReplace | httprouter.go:655-680 | the first exact match receives the new handler behind its kept or replaced middlewares and the further ones, no other route changes, and it counts as a revision; anything else is an error without effect |
| Router.RouterRoot.TryUpsert | httprouter.go:686-729 | replace the chain of an exact match, with the given middlewares appended unless they are for additions only; add an unconflicted route behind the router's middlewares; otherwise an error without effect |
| Router.RouterRoot.AddLateRoute | router_base.go:434-448 | late declarations queue while collecting and panic afterwards |
| Router.RouterRoot.RegisterLateRoutes | router_base.go:454-470 | late declarations join in order and take their names; the first panic stops the loop |
| Router.RouterRoot.RegisterDeferredRoutes | fiber.go:289-304 | the deferred routes are mounted once, in specificity order |
| Router.RouterRoot.FinalizeRoutes | fiber.go:375-390 | from collecting to sealed, with strict validation, the deferred routes and the revisions it takes; a validation that fails panics and still seals |
| Router.RouterRoot.ValidateRoutes | fiber.go:695-707 | validation under the options of either adapter or of the base router passes exactly if the declared routes and the pending late ones together have no path error, lint or name error and, under the error policy, no refused name stands |
| RouteValidation.CollectRoutesForValidation | route_validation.go:37-49 | the declared routes, followed by a new route object with the method, path, name and mode of each pending late declaration |
| Router.RouterRoot.Initialized | fiber.go:371-390 | late declarations join, strict validation runs and the plan is sealed, unless a panic intervenes; short of a validation panic the root stays a run of operations and keeps everything runs keep |
| Router.Server.Init | fiber.go:360-391 | a second call changes nothing, only a call that returns makes the adapter initialized, and one that returns leaves a sealed, orderly plan without late declarations |
| Initialization.InitIsARun | fiber.go:360-391 | unless strict validation panics, initializing takes registration operations and nothing else, so every theorem about runs covers it |
| Initialization.InitLeavesOrder | fiber.go:360-391 | an initialization that returns leaves a sealed plan whose mounted list is the specificity sort of everything declared for a sorting router and the declared list for any other, names that agree, no conflicting pair where conflicts are refused, and a passed validation in strict mode |
| Initialization.ValidationPanicLeavesUnmounted | fiber.go:371-390 | a validation panic leaves a sealed plan, for a sorting router with nothing mounted, and no later initialization mounts it |
| Registration.RunsKeepLifecycle | fiber.go:247-304 | in every state between operations, initialization included: nothing is mounted while a sorting router collects and the deferred list is the declared list; once sealed the mounted list is the specificity sort of the declared list; finalizing never shows; the name index agrees |
| Registration.SealedPlanNeverChanges | router_base.go:40-47 | after sealing no operation changes the plan |
| Registration.EqualRevisionsShowEqualTables | router_base.go:483-493 | equal revisions in one run mean equal declared and mounted method and path lists |
| Registration.SealedRouterDispatchesNarrowerFirst | fiber.go:289-304 | the mounted table of a sealed sorting router is a permutation of the declared one, narrower first |
| Registration.RunsKeepConflictFree | httprouter.go:578-615 | unless it is Fiber under log-and-continue, a router never holds two conflicting routes |
| Registration.RunsKeepNames | router_base.go:225-337 | without the replace policy every registration run, late routes included, keeps the name index and one path per public name |
| Registration.RoutesAreCalledAsGiven | router_base.go:225-284 | in every run the naming fields of each declared route are what its declaration gave it and then each naming that went through, late routes included |
| Registration.JoinAllIsARun | router_base.go:454-470 | joining the late declarations, up to a panic or to the end, is a run of registration operations |
| Registration.RunsAreOrderly | fiber.go:247-304 | lifecycle, names and freedom from conflicts together, after every run |
| Registration.HttpRouterTableIsUnambiguous | httprouter.go:789-829 | over every run no request is served by two httprouter routes of one method, with catch-alls taking one or more segments as conflict detection reads them, up to trailing-slash twins of one static path |
| Registration.HttpRouterRoutesShareExactly | httprouter.go:326-378 | over every run two well-formed httprouter routes of one method other than the root both match a request, with catch-alls taking zero or more segments, exactly if they are twins of one static path or one stops at the catch-all of the other |
| RouteValidation.ValidateRouteDefinitions | route_validation.go:61-104 | the errors of the nested loops in order: duplicates, conflicts, lints in both directions where they are on, then names |
| RouteValidation.ValidateNames | route_validation.go:106-133 | the loop over public names reports each clash with the first route of that name |
| RouteValidation.PathValidationMeansConflictFree | route_validation.go:61-104 | no path error or lint is found exactly in tables whose pairs all pass conflict detection and, with lints on, hold no bare id beside a static sibling |
| RouteValidation.PathErrorsMeaning | route_validation.go:61-104 | the path errors of a table are exactly those of its pairs: duplicates, the conflicts that detection reports, and lints in either direction |
| RouteValidation.NameErrorsMeaning | route_validation.go:106-133 | the name errors are exactly the routes whose public name the first carrier has on another path |
| RouteValidation.HttpRouterRunsPassPathValidation | route_validation.go:61-104 | the declared table of every httprouter run has no path error |
| RouteValidation.NoNameErrors | route_validation.go:106-133 | no name error is found exactly when every public name stands for one path |
| RouteValidation.NamedRunsPassNameValidation | route_validation.go:106-133 | the declared names of every registration run under the skip or error policy, those of late routes that have joined included, pass name validation |
| RouteValidation.ValidationMeaning | route_validation.go:24-49 | a plan passes validation exactly if declared and pending routes together are free of conflicts and, where on, lints and, under the error policy, every public name among them stands for one path and no refused naming is left standing |
| RouteValidation.HttpRouterValidationExactly | httprouter.go:835-847 | after any run an httprouter passes its own validation exactly if every pending late declaration would be admitted in its turn and, under the error policy, every public name declared or pending stands for one path and no refused naming is left standing |
| RouteValidation.ValidationForetellsJoining | route_validation.go:37-49 | on an httprouter that panics over conflicts the pending declarations join without a panic exactly if validation reports no path error |
| RouteValidation.LateNeverPanics | router_base.go:454-470 | without the panic policy every late declaration joins or is skipped and none stops the loop, and Fiber under log-and-continue declares them all |
| RouteValidation.HttpRouterValidationMeansNoRefusedName | httprouter.go:835-847 | with nothing pending, as when initialization validates, an httprouter passes its own validation after a run exactly if, under the error policy, no refused naming is left standing |
| RouteLints.DetectBareIdLint | route_validation.go:135-169 | a pair is linted exactly if the paths differ in one segment only, a bare id on one side and a static segment on the other |
| RouteLints.LintedExactly | route_validation.go:135-169 | the same by the characters of the segments: :id or :id<> beside a segment that starts with neither a colon nor a star, and all other segments equal |
| RouteLints.BareIdSpellings | route_validation.go:171-182 | a segment is a bare id exactly in two spellings, without a constraint and with an empty one |
| RouteLints.LintedContains | route_validation.go:135-169 | a linted route contains its static sibling, so the lint warns of a shadow |
| Scopes.ExactMatchIsEquality | eventstream/config.go:120-130 | exact matching is equality for a subscription if and only if all its labels are non-empty |
| Scopes.SubsetMatchMeaning | eventstream/config.go:134-144 | subset matching means having the labels of the subscription exactly for subscriptions whose labels are all non-empty |
| Records.CursorsCompareAsNumbers | eventstream/config.go:430-444 | cursor strings are compared as the numbers they render, and equal strings are equal numbers |
| Records.AscendingIsUnique | eventstream/config.go:323-325 | sorting by cursor has one result, whatever order the bucket map yields |
| Decimal.ParseFormat | eventstream/config.go:180 | a cursor rendered in decimal parses back to itself |
| ScopeKeys.KeysIdentifyScopes | eventstream/config.go:446-462 | canonical keys are equal exactly for equal scopes, so a bucket per key is a bucket per scope |
| ScopeKeys.CanonicalScopeKey | eventstream/config.go:446-462 | sorting, escaping and joining the labels in any map order gives the canonical key |
| QueryEscaping.UnescapeInvertsEscape | eventstream/config.go:459 | the escaping loses nothing |
| QueryEscaping.EscapedByte | eventstream/config.go:459 | which bytes stay as they are, that a space is a plus sign, and the two hexadecimal digits of every other byte |
| ScopeKeys.KeyIsWritten | eventstream/config.go:446-462 | the separators and the order of labels in a key |
| Decimal.NoLeadingZero | eventstream/config.go:180 | rendered cursors have no leading zero |
| StreamInvariants.BucketsGrow | eventstream/config.go:189-196 | publishing changes one bucket only, which stays the last bufferSize records of its scope |
| StreamInvariants.PublishKeepsValid | eventstream/config.go:172-224 | publishing keeps every invariant of the stream, slow-consumer drops included |
| StreamInvariants.PublishDoesNotPanic | eventstream/config.go:198-213 | no publish sends on a closed channel |
| StreamInvariants.SubscribeKeepsValid | eventstream/config.go:226-280 | subscribing keeps every invariant, with and without a gap |
| StreamInvariants.TurnKeepsValid | eventstream/config.go:380-416 | every step of a pump, a consumer or a cancellation keeps every invariant |
| StreamInvariants.RunsAreValid | eventstream/config.go:172-416 | the invariants hold in every reachable state |
| StreamInvariants.TurnMovesRecords | eventstream/config.go:380-416 | a pump or consumer step moves records along and loses, doubles or reorders none while the pump runs |
| StreamDelivery.DeliveryIsInOrder | eventstream/config.go:226-416 | for every matcher and interleaving, what a consumer read is a prefix of the promised replay followed by every later matching record while subscribed, with increasing cursors, and all of it once nothing is in flight |
| StreamDelivery.BucketsHoldTheLatest | eventstream/config.go:189-196 | each bucket is the ascending suffix of its scope's history of at most bufferSize records |
| StreamDelivery.BookkeepingHolds | eventstream/config.go:146-153 | published, buffered, active and resumed counts are true, every subscription is active, slow-dropped or disconnected, queues stay within capacity and nothing panicked |
| StreamDelivery.HistoryIsPublications | eventstream/config.go:172-188 | the history holds one record per publication, in order, and the k-th carries the k-th event, scope and time |
| StreamDelivery.PublishReaches | eventstream/config.go:198-213 | what a publication does to each subscriber: offered behind what waits if it matches and has room, dropped if it matches and has none, otherwise untouched |
| StreamDelivery.SubscribeMeaning | eventstream/config.go:226-280 | a subscribe call is refused and counted, or adds one running subscription with empty queues that starts live without a cursor; nothing else changes |
| EventStream.Config.Normalized | eventstream/config.go:94-105 | given sizes and matchers are kept and missing ones are 256, 32 and exact matching |
| StreamDelivery.SubscribesAreCounted | eventstream/config.go:239-268 | every subscribe call either made a subscription or counted a cursor that was not found |
| StreamDelivery.StopsInFourTurns | eventstream/config.go:380-416 | a cancelled or dropped subscriber can stop from any reachable state in four steps of its own pump |
| StreamDelivery.StopsWhenTold | eventstream/config.go:358-416 | in every continuation of a run, a cancelled or dropped subscriber that has not stopped can always move, and its pump moves at most twice per record it still has or is offered and three times more, so every schedule that keeps giving it such steps stops it; nothing sent is taken back and a dropped one is offered nothing more |
| StreamDelivery.DeliversUntilTold | eventstream/config.go:380-416 | in every continuation of a run, a subscriber neither cancelled nor dropped is pumping; with anything in flight a record can be taken, sent or consumed, the number of such steps is exactly accounted for by what was in flight and what was offered since, and with nothing in flight it has read all it was promised |
| Replays.RetainedIsBucket | eventstream/config.go:303-345 | with exact matching and non-empty labels the retained records are one bucket |
| Replays.ResumeReplaysTheRest | eventstream/config.go:303-345 | a resume from the last of a contiguous run replays exactly what follows it, or reports a gap exactly when that record was evicted |
| Replays.ResumeLosesExactlyTheEvicted | eventstream/config.go:303-345 | for any matcher and any last record of a matching scope, a resume is a gap exactly if at least bufferSize later records of that record's scope were published; otherwise it replays the later retained records, which are all the later matching ones exactly if no matching scope received more than bufferSize of them |
| Replays.ResumeFromUnknownCursor | eventstream/config.go:303-345 | a resume from a cursor that no matching record had is a gap exactly if any matching record was published, and otherwise starts live |
| Replays.HeldWhileFewFollow | eventstream/config.go:189-196 | a record is still retained exactly while fewer than bufferSize records of its scope follow it |
| Replays.SubsetResumeLosesSilently | eventstream/config.go:303-345 | a concrete history on which subset matching loses a record without reporting a gap |
| Resume.ResumeIsSeamless | eventstream/config.go:226-345 | replay and live records carry on exactly where the earlier sessions stopped |
| Resume.ClientsMissNothing | eventstream/config.go:172-416 | over many sessions, drops and reconnections in any interleaving, what a client received is one contiguous run of its scope's history, up to date when nothing is in flight |
| Resume.ClientsReceiveInOrder | eventstream/config.go:172-416 | under any matcher and with any labels, what a client received over all its sessions are published records of matching scopes with strictly increasing cursors, so none is doubled, reordered or made up |
| Resume.GapMeansEviction | eventstream/config.go:239-253 | a client learns of a gap exactly when at least bufferSize records of its scope were published after the last one it received |
| LiveStream.ScopedStream.Publish | eventstream/config.go:172-224 | the method with its loops over subscribers in map order is the publish step, and the record it returns carries the given scope, name, payload and metadata, the time of publication, and the event's own time or, without one, that time |
| LiveStream.ScopedStream.Fanout | eventstream/config.go:198-213 | offering to everyone and then removing the slow ones delivers to each as the step says |
| LiveStream.ScopedStream.Subscribe | eventstream/config.go:226-280 | the method is the subscribe step |
| LiveStream.ScopedStream.ReplayLocked | eventstream/config.go:303-345 | collecting from the bucket map, sorting and searching gives the replay |
| LiveStream.ScopedStream.CollectMatching | eventstream/config.go:308-318 | the collected records are exactly the retained matching ones, each once |
| LiveStream.SortByCursor | eventstream/config.go:323-325 | the result is ascending and holds the same records |
| LiveStream.ScopedStream.Unsubscribe | eventstream/config.go:358-378 | the deferred removal is the unregister step, counted only if nothing removed the subscriber before |
| Manifest.DiffRouteManifests | route_manifest.go:65-137 | the result is the difference of the two manifests as multisets |
| Manifest.RemoveMatched | route_manifest.go:139-169 | what is left of one side is its multiset difference with the other, in order |
| Manifest.UniqueIndexesByName | route_manifest.go:183-203 | exactly the non-empty names carried by one entry are indexed, at that entry |
| Manifest.FindChanges | route_manifest.go:77-101 | changes pair the names that are unique on both sides, and the used positions are theirs |
| Manifest.LeftoversDiffer | route_manifest.go:88-92 | the branch for equal entries is never reached |
| Manifest.DiffIsUnique | route_manifest.go:65-137 | there is one difference, whatever the order of either manifest and of the maps |
| Manifest.DiffIsExact | route_manifest.go:65-137 | before without removed and changed, with added and changed, is after, with multiplicities; a change keeps its name and does change |
| Manifest.EmptyDiffMeansSame | route_manifest.go:65-137 | the difference is empty exactly for equal multisets |
| Manifest.SwapSwapsRoles | route_manifest.go:65-137 | swapping the manifests swaps added with removed and before with after |
| Manifest.SortedIsUnique | route_manifest.go:171-181 | the entry order leaves one sorted list per multiset |
| Manifest.EntryOrderMeaning | route_manifest.go:171-181 | entries are ordered by path, then method, then name |
| EventLog.EventLog.Add | websocket_event_history.go:66-85 | events and indexes after an addition, and when it panics |
| EventLog.EventLog.Get | websocket_event_history.go:88-132 | index choice, filter loop and pagination give the query result |
| EventLog.EventLog.CleanupOldEvents | websocket_event_history.go:263-289 | the expired run at the front leaves events and indexes, or the indexes only when everything is expired |
| EventLog.EventLog.RemoveFromSlice | websocket_event_history.go:245-252 | the first occurrence is cut out |
| EventHistory.AddKeepsAgreement | websocket_event_history.go:66-85 | an addition, with or without dropping the oldest event, keeps every index the in-order filter of the events |
| EventHistory.AddMeaning | websocket_event_history.go:66-85 | which events are left after an addition with room, without room, and when it panics |
| EventHistory.CleanupMeaning | websocket_event_history.go:263-289 | a cleanup keeps the events from the first unexpired one on |
| EventHistory.RemoveKeepsIndexes | websocket_event_history.go:222-252 | removing the oldest event from the indexes removes the right occurrence even if a pointer was added twice |
| EventHistory.CleanupKeepsAgreementExactly | websocket_event_history.go:263-289 | a cleanup keeps the agreement exactly if expiry is off, an unexpired event is left, or no event is indexed |
| EventHistory.GetIsScan | websocket_event_history.go:88-132 | a query through an index equals the linear scan for the type, namespace, time range and client asked for, paginated |
| EventHistory.PageIsSlice | websocket_event_history.go:119-131 | a page is the results from the offset on up to the limit, a negative offset being none and a limit that is not positive being none |
| EventHistory.PagesTile | websocket_event_history.go:119-131 | consecutive pages are never empty and joined give every result once, in order |
| EventHistory.ClientIsHonouredExactly | websocket_event_history.go:183-203 | the client criterion is honoured for every history exactly if no type or namespace is given with it, or nothing can match |
| EventHistory.RunsKeepAgreement | websocket_event_history.go:66-289 | after any run of additions, clearings and harmless cleanups: agreement, the size bound, and queries as scans |
| EventHistory.RunsIndexASuffix | websocket_event_history.go:66-289 | in every run that adds no expired event again while it is held, cleanups that expire everything included, each index is the in-order filter of one suffix of the events, and every event before it had expired at some cleanup |
| EventHistory.LaggingQueryIsScan | websocket_event_history.go:88-132 | an indexed query then equals the scan of that suffix |
| EventHistory.CleanupRestoresAgreementExactly | websocket_event_history.go:263-289 | after any such run, a cleanup no earlier than the ones before leaves the agreement exactly if expiry is off, an unexpired event is left, or no event is indexed |
| EventHistory.ExpiredEventAddedAgain | websocket_event_history.go:66-289 | five operations after which an expired event added again is missing from its index, and a cleanup that leaves an unexpired event does not restore the agreement |
| BinaryCodec.DecodesExactlyEncodings | websocket_binary.go:504-579 | a text decodes to a message exactly when it begins with that message's encoding and the message is within both bounds |
| BinaryCodec.RoundTrip | websocket_binary.go:504-579 | an encoded message within the bounds decodes to itself, whatever follows it |
| BinaryCodec.EncodingLayout | websocket_binary.go:504-534 | an encoding is the length of the type, the type, the length of the data and the data, lengths in four bytes with the most significant first |
| BinaryCodec.RejectedExactly | websocket_binary.go:537-572 | a text is rejected for its type length above 1024, its data length above the maximum, or its own length, exactly in terms of its bytes |
| BinaryCodec.ProperPrefixIsRejected | websocket_binary.go:537-579 | every proper prefix of an encoding is rejected, as truncated within the bounds |
| BinaryCodec.DecodeMessage | websocket_binary.go:537-579 | reading step by step through a reader gives the same result and errors |
| BinaryCodec.Reader.ReadFull | websocket_binary.go:551-572 | all bytes asked for and the rest of the text, or an error |
| TransferManager.FileTransferManager.ReceiveChunk | websocket_binary.go:177-212 | the transfer, the stored files and the result after one chunk |
| TransferManager.FileTransferManager.CompleteTransfer | websocket_binary.go:215-257 | chunks joined in index order are stored once, or the first gap or an error of the storage fails the transfer |
| TransferManager.FileTransferManager.SendChunks | websocket_binary.go:312-318 | the chunks that are sent, one per index |
| Transfers.ChunksCoverFile | websocket_binary.go:151 | every counted chunk starts inside the file and together they reach its end |
| Transfers.UploadFollowsDeliveries | websocket_binary.go:177-257 | for arbitrary deliveries the upload stays open until as many different indices as chunks have arrived, then stores what was gathered once if the indices are right and the storage accepts, or fails, and never changes again; its progress is the bytes received until then, repeats included |
| Transfers.UploadStoresTheFile | websocket_binary.go:177-257 | a non-empty file cut into chunks that arrive in any order with repeats stays open until the last missing index; then it is stored once and unchanged if the storage accepts, and fails otherwise |
| Transfers.EmptyUploadNeverCompletes | websocket_binary.go:206-209 | an upload of an empty file or of a negative size is never completed by any chunks |
| FlashMessages.SetMessageAppends | flash/message.go:23-29 | whatever is pending, setting a message appends it to the messages that decode unless it is all empty |
| FlashMessages.SetMessagesAppend | flash/message.go:119-140 | the same for any sequence of calls, in call order |
| FlashMessages.DefaultsMeaning | flash/message.go:109-117 | an empty title or text takes its default and every other field stays |
| FlashMessages.SetMessageKeepsData | flash/message.go:23-29 | everything pending that is not a flash key stays as it was |
| FlashMessages.AddMessageMeaning | flash/message.go:119-140 | a context written for a message holds the count, the keys of its messages, no other flash key, and everything else it held |
| FlashMessages.SingleMessageDecodes | flash/message.go:78-85 | a context without a count but with a single message decodes to it |
| FlashMessages.CountedMessagesDecode | flash/message.go:73-107 | a context with the count and keys of some messages decodes to the non-empty ones, whatever else it holds |
| FlashMessages.AtoiMeaning | flash/message.go:87-90 | a count may carry a sign and is otherwise digits only |
| FlashMessages.MessageKeysDiffer | flash/message.go:94-96 | message keys collide only for the same index and field |
| FlashCookie.EntrySurvivesExactly | flash/flash.go:57 | one entry survives rendering and parsing exactly if its key has no colon and its value no NUL |
| FlashCookie.TextIsWritten | flash/flash.go:157-161 | how an entry is written between NUL characters with a colon behind its key |
| FlashCookie.CookieRoundTrip | flash/flash.go:155-177 | a context reads back from its cookie, for every map order, exactly if it is clean |
| FlashCookie.FlashRoundTrip | flash/flash.go:255-276 | after any sequence of SetMessage calls the cookie decodes to the pending messages and then exactly the set ones that are not all empty, in call order, despite stale toast keys |
| FlashCookie.SetMessageKeepsClean | flash/message.go:23-29 | setting a clean message keeps the context clean |
| Flash.GetMessagesFrom | flash/message.go:73-107 | the decoding loop gives the messages of a context |
| Flash.AddMessageToContext | flash/message.go:119-140 | the deleting and encoding loops give the new context |
| Flash.BuildCookieText | flash/flash.go:155-161 | the text lists every entry once, in some order |
| Flash.FlashStore.SetCookie | flash/flash.go:155-177 | the emitted cookie renders the merged context, which stays pending |
| Flash.FlashStore.SetMessage | flash/message.go:23-29 | what is pending and what cookie is emitted after one message |
| Flash.FlashStore.Get | flash/flash.go:70-83 | the received cookie is parsed and cleared with what was pending; without a cookie nothing changes |

## Left out

- StreamInvariants.TurnKeepsValid: the pump goroutine, its consumer and context are steps on values, not methods on channels; the stream object's own sections are methods in `LiveStream`.
- Transfers.UploadStoresTheFile: chunks are received one at a time; two concurrent deliveries for one transfer, timeouts and cancellation are not modelled; whether the storage accepts is an input.
- EventStream: a nil context, which is refused before anything happens, and the observability hooks.
- EventStream: cursors are unbounded, so wrap-around of the 64-bit counter is not modelled; neither is the 64-bit bound of other parsed numbers.
- FlashMessages: context values are strings; how other value types are formatted is not modelled.
- Flash.FlashStore.Get: the regular-expression engine is modelled by the leftmost match of that one expression.
- Router.RouterRoot.TryReplace: what a handler or middleware does is opaque, so a chain is the order of its links; wrapping, route metadata and late-registration callbacks are not modelled.
- ReportedRoutes.MisreportedExactly: routes with a star inside a segment.
- Router.Server.Init: panics of the underlying routers, miss handlers, and the lock that serializes calls.
- EventHistory.RunsIndexASuffix: runs that add an expired event again while it is still held, where the statement fails (`EventHistory.ExpiredEventAddedAgain`).
- Router.RouterRoot.Handle: groups, prefixes and path joining; paths arrive as declared.
- Miss handlers, static files, views, OpenAPI and metadata reflection, cookies other than flash, clients: plumbing without properties of this kind.
- WebSocket hub, rooms, reconnect queue, heartbeat, acknowledgements and the event batcher: behaviour that depends on timers and scheduling.
- Building a manifest from route definitions, which copies and sorts three fields.
- Transfer admission (size and concurrency limits), downloads beyond the cutting of chunks, and replaying history to a client: easy members around the modelled cores.

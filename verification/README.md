# A verified model of the Aeraki control plane

Aeraki manages layer-7 protocols in an Istio service mesh. This project models, in Dafny 4.11, the
parts of its control plane that hold state or translate one configuration language into another, and
proves what they promise over every input, every run and every interleaving. `dafny verify
dfyconfig.toml` checks all of it.

**Virtual addresses** (`VipPool`, `VipAllocator`, `VipRuns`, `VipRoom`, `VipRestart`). The ServiceEntry
controller gives every eligible entry an address of its own in 240.240.0.0/16, which must be unique in
the mesh. The controller and its API client are classes that change in place; runs interleave
reconciles under arbitrary network faults with user edits and restarts. Proved: the wrapping cursor is
one cycle of 64,771 addresses; the unbounded search ends exactly when the pool has room, with the first
free address; settled entries are never moved by the controller; every mesh for which the pool is large
enough converges to distinct addresses, however long the run. A restart, which loses the owner map, can
move an address that was given out: the exact condition under which it does not is proved, with and
without failing updates.

**EnvoyFilters** (`FilterNames`, `FilterDiff`, `FilterConvergence`, `PushLoop`, `FilterLoop`,
`FilterExport`). A push is a delete/update/create diff against the API server, any call of which can
fail. Proved: each filter gets exactly the one call it needs; the store converges if and only if every
call succeeded; any pattern of failures is repaired by a later clean push. The error that is returned is
that of the last call only, so a failure can be masked; when a nil result can be trusted is proved exactly,
from what is known before the first call, and the control loop is proved up to date whenever it is at rest,
except after a failure that three retries did not mend or after a push whose nil could not be trusted. The strings used as keys and names
identify what they were built from under conditions that are proved exact.

**Dubbo authorization** (`Regex`, `AuthzMatchers`, `Rbac`, `AuthzModel`, `AuthzPolicy`, `AuthzDubbo`).
Policy rules are compiled to Envoy RBAC trees. Proved: the compiled policy matches a request exactly when
the rule holds of it, generation never fails, and Envoy accepts the result; the string patterns mean what
a reader of the policy expects, with the exact exceptions.

**MetaProtocol routes** (`MetaRouting`, `RouteValidation`, `RouteTranslation`, `RouteMeaning`, `Protocols`,
`RouteCache`, `CacheInvalidation`, `RouteNames`, `RouteDelivery`). The webhook validates MetaRouter rules;
two translations turn them into HTTP route configurations; event filters decide when they are rebuilt;
proxies subscribe to them by name. Proved: what is accepted can be translated, first-match routing survives
both translations and any map order, the filters miss no change under stated conditions, and a subscribing
proxy gets exactly one configuration, which routes as the MetaRouter says.

Code that mutates is modelled by classes and loops, each proved equal to a specification function or
predicate; the theorems are about those. What comes from libraries or the network is a parameter: the
outcome of each API call, the DNS and regular-expression syntax checks, the naming of Istio clusters, and
the regular-expression engine, which is assumed to follow RE2 only on literals, `.`, `.*` and `.+`.

Where the code and its documentation differ, the code is modelled. The resource definition
(`k8s/crd.yaml`, lines 414-415) says that an attribute without a pattern is checked for presence; the code
drops it; `RouteMeaning.PresenceRuleMisroutes` shows an accepted rule that is misrouted for that reason, and
`RouteMeaning.MatchIsFaithfulIff` says exactly when it matters. The comment on
`checkError` says that ignoring an error widens a deny policy; `AuthzPolicy.DenyIsWiderIff` says exactly
when it does, and the generators that exist satisfy it.

## Model

| member | source | states |
|---|---|---|
| VipPool.EmitAdvances | internal/controller/kube/serviceentry.go:191-203 | One call moves to the next slot of the pool's cycle and keeps the cursor in 0..65025 |
| VipPool.CursorInRange | internal/controller/kube/serviceentry.go:191-203 | After any number of calls the cursor is in 0..65025 and only pool slots are printed |
| VipPool.OneCycle | internal/controller/kube/serviceentry.go:191-203 | Any 64,771 consecutive calls print each pool slot exactly once |
| VipPool.AddressInjective | internal/controller/kube/serviceentry.go:199-202 | Different slots print different addresses |
| VipPool.NextAddress | internal/controller/kube/serviceentry.go:191-203 | After 240.240.t.f comes 240.240.t.(f+1), after t.254 comes (t+1).1, and after 254.254 comes 0.0, octet by octet |
| VipPool.FirstAddress | internal/controller/kube/serviceentry.go:191-203 | A new cursor starts at 240.240.0.1 |
| VipPool.OneCycleOfAddresses | internal/controller/kube/serviceentry.go:191-203 | The same for the printed addresses: each pool address exactly once per cycle |
| VipAllocator.Client.Fetch | internal/controller/kube/serviceentry.go:83-91 | A lookup is live, not found, or failed, and reads the stored entry |
| VipAllocator.Client.Update | internal/controller/kube/serviceentry.go:160-163 | An update replaces one entry, or fails and changes nothing |
| VipAllocator.ServiceEntryController.constructor | internal/controller/kube/serviceentry.go:98-102 | A new controller knows no owner and its cursor stands at zero |
| VipAllocator.ServiceEntryController.GetNextIP | internal/controller/kube/serviceentry.go:191-203 | Prints the cursor's slot, skips multiples of 255, wraps, and touches nothing else |
| VipAllocator.ServiceEntryController.NextAvailableIP | internal/controller/kube/serviceentry.go:172-189 | When the search can end, the loop ends at the first address that is unowned or whose owner is gone, and forgets only that owner |
| VipAllocator.ServiceEntryController.UpdateServiceEntry | internal/controller/kube/serviceentry.go:159-170 | The entry is stored and its owner recorded, or neither |
| VipAllocator.ServiceEntryController.AutoAllocateIP | internal/controller/kube/serviceentry.go:123-157 | The whole new state of store, owner map and cursor is the reconcile step of the run model |
| VipAllocator.ServiceEntryController.Reconcile | internal/controller/kube/serviceentry.go:78-95 | Same, from the key; the error is set exactly when the entry could not be fetched |
| VipRuns.StepKeepsSettled | internal/controller/kube/serviceentry.go:123-189 | No step but a restart or the entry's own edit unsettles or moves a settled entry, whatever fails |
| VipRuns.RunKeepsSettled | internal/controller/kube/serviceentry.go:123-189 | The same over every run |
| VipRuns.ReconcileWrites | internal/controller/kube/serviceentry.go:123-170 | Whatever fails, a reconcile writes at most the first address of its own entry, one no live entry owned; hosts, ports, resolution, the other addresses and all other entries stay |
| VipRuns.ReconcileLeavesAlone | internal/controller/kube/serviceentry.go:123-148 | Nothing at all changes for an entry without resolution or with another kind of address, when it cannot be fetched, or when the owner of its address cannot be looked up |
| VipRuns.ReconcileSettles | internal/controller/kube/serviceentry.go:123-157 | An entry with resolution, and no address or one in 240.240, is settled by its own fault-free reconcile; field by field only its first address is written and no other entry is touched |
| VipRuns.ServedVipsDiffer | internal/bootstrap/server.go:296-302 | In every run, two entries served and left alone since have different addresses |
| VipRoom.SearchEndsIffRoom | internal/controller/kube/serviceentry.go:172-189 | With working lookups the search ends if and only if some pool address has no live owner, and then within 64,771 iterations |
| VipRoom.SearchFindsFirstFree | internal/controller/kube/serviceentry.go:172-189 | It finds the first free address in cyclic order; every address passed over belongs to a live entry; at most one owner is forgotten, one that is gone |
| VipRoom.ReconcileAddsAtMostOne | internal/controller/kube/serviceentry.go:123-170 | A reconcile gives at most one more address to a live entry and changes neither which entries exist nor which are eligible |
| VipRoom.DemandNeverGrows | internal/controller/kube/serviceentry.go:123-189 | The addresses with a live owner and the unsettled eligible entries, taken together, never become more over a reconcile, whatever fails |
| VipRoom.RoomToRun | internal/controller/kube/serviceentry.go:172-189 | If the pool has an address for every unsettled eligible entry, every reconcile of a run of any length returns |
| VipRoom.Convergence | internal/controller/kube/serviceentry.go:123-189 | From any store and owner map, reconciles in any order that serve every eligible entry once without faults leave all addresses pairwise distinct and all eligible entries settled |
| VipRoom.ConvergenceWithRoom | internal/controller/kube/serviceentry.go:123-189 | With that many free addresses those reconciles, however many, all return and converge |
| VipRestart.RestartRebuilds | internal/controller/kube/serviceentry.go:98-102 | If all eligible entries have distinct addresses, then after a restart any reconciles write nothing and rebuild exactly the owner map of the entries fetched |
| VipRestart.RestartQuietIffDistinct | internal/controller/kube/serviceentry.go:123-157 | Restarts cause no update if and only if all eligible entries have distinct addresses |
| VipRestart.RestartKeepsVipsIff | internal/controller/kube/serviceentry.go:98-157 | After a restart no address is taken back, in any run of reconciles whose updates succeed, if and only if addresses are distinct and no entry holds one of the first n addresses the cursor prints, for n entries still waiting, or all but the last pool address if more wait |
| VipRestart.RestartKeepsVipsUnderFaultsIff | internal/controller/kube/serviceentry.go:98-170 | With failing updates allowed, the same if and only if addresses are distinct and either no entry waits for an address or no entry holds a pool address |
| VipRestart.RestartMovesAVip | internal/controller/kube/serviceentry.go:98-189 | A settled, unedited entry can lose 240.240.0.1 to a new entry reconciled first after a restart |
| FilterNames.KeysIdentifyIff | internal/envoyfilter/controller.go:468-470 | The map key is injective on names starting with aeraki- if and only if no namespace plus a dash starts with another followed by -aeraki- |
| FilterNames.KeysIdentifyWithoutAeraki | internal/envoyfilter/controller.go:468-470 | In particular when no namespace contains -aeraki |
| FilterNames.OutboundNamesIdentifyIff | internal/envoyfilter/network_filter.go:193-195 | Outbound names are injective in host, address and port if and only if no address ends with a dash and another address |
| FilterNames.OutboundNamesIdentifyDashFree | internal/envoyfilter/network_filter.go:193-195 | In particular for addresses without a dash |
| FilterNames.InboundNamesIdentify | internal/envoyfilter/network_filter.go:193-199 | Inbound names are injective in host and port and never equal an outbound name |
| FilterNames.GenerateOutboundListenerEnvoyFilters | internal/envoyfilter/network_filter.go:82-124 | One filter per address, in order, named aeraki-outbound-host-address-port and patching the listener address_port |
| FilterNames.ListenersNeverClash | internal/envoyfilter/network_filter.go:93-117 | Once the addresses have converged, outbound filters of two single-address services never patch the same listener |
| FilterDiff.ApiServer.Issue | internal/envoyfilter/controller.go:145-177 | A write that succeeds was possible and is carried out; a failed one changes nothing |
| FilterDiff.ApiServer.List | internal/envoyfilter/controller.go:135-137 | Lists each managed filter once, or, on an ignored error, nothing |
| FilterDiff.DeletePass | internal/envoyfilter/controller.go:139-149 | Issues a delete for each listed filter whose key is not generated, in order |
| FilterDiff.UpdatePass | internal/envoyfilter/controller.go:151-168 | Issues an update with the listed version for each listed filter whose spec differs, and removes the listed keys from the generated map |
| FilterDiff.CreatePass | internal/envoyfilter/controller.go:170-178 | Creates what is left, in some order of the map |
| FilterDiff.PushEnvoyFilters2APIServer | internal/envoyfilter/controller.go:128-180 | The calls are the plan for what was listed, the store is the replay of their outcomes, and the error is that of the last call |
| FilterConvergence.PlanExact | internal/envoyfilter/controller.go:139-178 | The calls are, for each filter, exactly the one it needs, so no filter is written twice |
| FilterConvergence.PlanOrder | internal/envoyfilter/controller.go:139-178 | Deletions come before updates and updates before creations |
| FilterConvergence.ConvergedIffAllOk | internal/envoyfilter/controller.go:128-198 | The managed filters end up equal to the generated set in namespace, name and spec if and only if every call succeeded |
| FilterConvergence.PushFrame | internal/envoyfilter/controller.go:128-198 | Whatever fails, unmanaged filters are untouched and each filter is written at most once |
| FilterConvergence.AnyPushFrame | internal/envoyfilter/controller.go:135-180 | The frame also holds when the listing failed |
| FilterConvergence.ConvergedIsQuiet | internal/envoyfilter/controller.go:151-168 | A push into a converged store issues no call |
| FilterConvergence.RecoversAfterFailures | internal/envoyfilter/controller.go:128-198 | After any failures a later clean push converges and the next one is quiet |
| FilterConvergence.UnfaultedConvergesIff | internal/envoyfilter/controller.go:182-198 | Without network faults a push converges if and only if no unmanaged filter sits where a generated one belongs; no update is refused for a stale version |
| FilterConvergence.NilErrorHidesAFailure | internal/envoyfilter/controller.go:145-179 | A push can return no error and leave the store out of date |
| FilterConvergence.NilIsTrustedIff | internal/envoyfilter/controller.go:128-180 | Before the first call: a nil result is sure to mean an up-to-date store if and only if, when the filters were listed, there is at most one call or the last cannot succeed, and when they were not, nothing is generated and nothing managed is stored, or the last creation cannot succeed, or only its filter is missing |
| FilterConvergence.AerakiNamesTellApart | internal/envoyfilter/controller.go:468-470 | Names starting with aeraki- in namespaces without -aeraki meet the condition on keys |
| PushLoop.MainLoop.ConfigUpdated | internal/envoyfilter/controller.go:513-515 | One more event waits |
| PushLoop.MainLoop.Callback | internal/envoyfilter/controller.go:100-115 | Consumes events; a failure re-queues one until three retries are used up |
| PushLoop.StepBudget | internal/xds/cache_mgr.go:83-102 | Four times the events minus the retries drops at every callback and the retries stay in 0..3 |
| PushLoop.CallbacksBounded | internal/envoyfilter/controller.go:97-126 | In any run there are at most four callbacks per event |
| PushLoop.CounterCountsFailures | internal/envoyfilter/controller.go:97-115 | In every run from zero the retry counter is the number of failures in a row modulo four |
| PushLoop.RetriedThreeTimes | internal/envoyfilter/controller.go:100-115 | In every run a failed callback queues an event again unless it is the fourth failure in a row, or a multiple of it; a successful one never does |
| PushLoop.FirstFailuresAreRetried | internal/xds/cache_mgr.go:92-97 | After one to three failures in a row an event is waiting |
| PushLoop.NoLostChange | internal/envoyfilter/controller.go:97-126 | A change since the last successful callback has an event waiting, unless the last callback was the fourth failure in a row, or a multiple of it |
| FilterLoop.AtRestUpToDate | internal/envoyfilter/controller.go:97-180 | In every run of changes, failed generations and pushes, whenever nothing is pending the managed filters are the generated ones, unless the last callback was the fourth failure in a row, or a multiple of it, or started where nil cannot be trusted and a call or the listing failed |
| FilterLoop.MaskingIsExact | internal/envoyfilter/controller.go:97-180 | In any state of the loop, a push that returns nil is sure to leave the store up to date if and only if its nil can be trusted beforehand, and nil never queues a retry |
| FilterLoop.MaskedIffOutOfDate | internal/envoyfilter/controller.go:100-180 | A nil push that leaves the store out of date is masked and started where nil cannot be trusted; one that listed the filters is masked only then |
| FilterExport.ValidateExportTo | internal/webhook/validation/scheme/validation.go:141-185 | Accepts exactly the lists that are valid, pairwise different once . is the namespace, and alone if * or ~ |
| FilterExport.AcceptableIff | internal/webhook/validation/scheme/validation.go:141-185 | In a namespace with an ordinary name: accepted exactly if every entry is a dot, star, tilde or label, none is repeated, the dot does not stand beside the namespace's own name, and star and tilde stand alone |
| FilterExport.CreateEnvoyFiltersOnExportNSs | internal/envoyfilter/controller.go:309-339 | Files one copy per target namespace, or one in the default namespace |
| FilterExport.ExportByDefault | internal/envoyfilter/controller.go:311-319 | Without a router or with an empty list exactly one entry is set, in the service's namespace if scoped to namespaces and in the root namespace otherwise |
| FilterExport.ExportIsOnePerEntry | internal/envoyfilter/controller.go:320-337 | For an accepted list there is exactly one map entry per listed item, under different keys: the router's namespace for a dot, the root for a star, else the item; every other entry is unchanged |
| AuthzMatchers.MatcherSays | internal/plugin/dubbo/authz/matcher/string.go:45-73 | For every one-line text: a star accepts exactly the non-empty ones; any other value accepts exactly the texts that start with the fixed prefix and go on as the exact, prefix or suffix value says |
| AuthzMatchers.LeadingStarIff | internal/plugin/dubbo/authz/matcher/string.go:51-59 | With a fixed prefix, a leading-star value means its suffix if and only if the rest is free of pattern characters |
| AuthzMatchers.StarredNamespaceIff | internal/plugin/dubbo/authz/model/generator.go:63-67 | A value with stars anywhere accepts exactly the texts that somewhere read /ns/, what the value stands for with each star for any text, and a slash |
| AuthzMatchers.ExactNamespaceIff | internal/plugin/dubbo/authz/model/generator.go:63-67 | An exact namespace accepts exactly its workloads, plus the readings opened by a trust domain or namespace called ns |
| AuthzMatchers.PrefixNamespaceIff | internal/plugin/dubbo/authz/model/generator.go:63-67 | A trailing star accepts exactly the namespaces with that prefix, up to the same readings |
| AuthzMatchers.SuffixNamespaceIff | internal/plugin/dubbo/authz/model/generator.go:63-67 | A leading star accepts exactly the suffix meaning, and everything when sa ends with the suffix |
| AuthzModel.CollectLeaves | internal/plugin/dubbo/authz/model/model.go:174-182 | Collects the leaves of the values in order; an ALLOW policy stops at an error, others skip it |
| AuthzModel.GenerateRule | internal/plugin/dubbo/authz/model/model.go:171-246 | One or-tree for the values and one negated or-tree for the notValues |
| AuthzModel.GenerateRules | internal/plugin/dubbo/authz/model/model.go:140-168 | The conjunction of the rules' trees, or any when there are none |
| AuthzModel.Generate | internal/plugin/dubbo/authz/model/model.go:109-138 | Both halves in order, or an error if a half fails or is empty |
| AuthzModel.RuleTreesMean | internal/plugin/dubbo/authz/model/model.go:171-246 | For any leaf generator: when generation fails, and what the generated trees hold of, in terms of the values that could be generated |
| AuthzPolicy.RuleList.InsertFront | internal/plugin/dubbo/authz/model/model.go:254-266 | Puts a rule in front, unless it lists nothing |
| AuthzPolicy.New | internal/plugin/dubbo/authz/model/model.go:59-90 | One rule list per from and to entry, or one empty list where none is given |
| AuthzPolicy.ModelMeansRule | internal/plugin/dubbo/authz/model/model.go:59-90 | The model means what the policy rule says |
| AuthzPolicy.CompilerIsCorrect | internal/plugin/dubbo/authz/model/model.go:59-234 | For every rule, request and action, generation succeeds, Envoy accepts the policy, and it matches exactly when the rule holds |
| AuthzPolicy.AllowIsExactOrDropped | internal/plugin/dubbo/authz/model/model.go:236-241 | Whatever the generators, an ALLOW policy is exact or not generated |
| AuthzPolicy.DenyIsWider | internal/plugin/dubbo/authz/model/model.go:243-246 | For generators that each always succeed or always fail, a DENY policy matches a superset of the intended requests |
| AuthzPolicy.DubboGeneratorsAreUniform | internal/plugin/dubbo/authz/model/generator.go:32-79 | The four generators are of that kind on both halves |
| AuthzPolicy.DenyIsWiderIff | internal/plugin/dubbo/authz/model/model.go:243-246 | For a generator that supports only some values, a DENY rule is never narrowed if and only if no needed value is lost |
| AuthzDubbo.PolicyMeansWhatItSays | internal/plugin/dubbo/authz/model/generator.go:32-79 | With the real matchers, a compiled policy matches a call, also one with an empty interface or method, exactly when the rule, read as written with a star for any non-empty text, holds of it |
| RouteValidation.ValidateMetaRouteMatch | internal/webhook/validation/scheme/validation.go:366-377 | No errors if and only if every attribute is set, named, and has a usable pattern, for any map order |
| RouteValidation.ValidateDestination | internal/webhook/validation/scheme/validation.go:471-507 | No errors if and only if host, subset and port are valid |
| RouteValidation.ValidateMetaRouteDestinations | internal/webhook/validation/scheme/validation.go:448-469 | No errors if and only if there is a destination, each is valid with weight at most 100, and several sum to 100 in 32 bits |
| RouteValidation.ValidateMetaRoute | internal/webhook/validation/scheme/validation.go:319-364 | No errors if and only if match, mutations, mirror and destinations are acceptable |
| RouteValidation.ValidateRoutes | internal/webhook/validation/scheme/validation.go:211-217 | No errors if and only if every route is present and acceptable |
| RouteValidation.AcceptedIff | internal/webhook/validation/scheme/validation.go:319-507 | What is accepted, written out over attributes, mutations, mirror, targets and weights, with the sum taken modulo 2^32 |
| RouteValidation.AcceptedWeightsAddUp | internal/webhook/validation/scheme/validation.go:452-467 | Accepted lists of 2 to 42,949,673 destinations really add up to 100 |
| RouteValidation.WeightCheckIsExactIff | internal/webhook/validation/scheme/validation.go:452-467 | The 32-bit check is exact for lists of n destinations if and only if n is at most 42,949,673 |
| RouteTranslation.MetaMatch2HttpHeaderMatch | internal/xds/utils.go:153-201 | One header matcher per attribute that has a pattern or is a catch-all, in any map order |
| RouteTranslation.ConstructAction | internal/xds/cache_mgr.go:231-307 | Clusters, 32-bit total weight, hash policies and mirror of a route without nulls |
| RouteTranslation.ConstructRoute | internal/xds/cache_mgr.go:207-229 | One translated route per rule, in order, under the subscribed name |
| RouteTranslation.MetaProtocolRoute2HttpRoute | internal/xds/utils.go:36-137 | The HTTP configuration with one virtual host and one route per MetaProtocol route |
| RouteMeaning.HeadersMeanPatterned | internal/xds/utils.go:153-186 | In any order the headers hold exactly when the attributes that have a pattern do |
| RouteMeaning.MatchIsFaithfulIff | internal/xds/utils.go:178-179 | The match is faithful for every request if and only if no attribute lacks a pattern, or one is a regular expression, other than the star, with which the engine matches nothing |
| RouteMeaning.PresenceRuleMisroutes | internal/xds/utils.go:178-179 | A rule whose one attribute lacks a pattern is accepted, and every configuration made from it routes the request without that attribute, which the rule does not select |
| RouteMeaning.ActionClusters | internal/xds/cache_mgr.go:235-282 | For any rule without nulls: one cluster per destination in order, named by subset, host and its own non-zero port or else the service's, with its weight, and the 32-bit sum of the weights |
| RouteMeaning.ActionKeepsShares | internal/xds/cache_mgr.go:235-282 | Every cluster gets its share of an accepted rule's traffic; one weighted cluster per destination in order, named by its own port or the service's; the total is the true sum, 100 |
| RouteMeaning.MirrorIsExact | internal/xds/cache_mgr.go:284-303 | The one mirror of an accepted rule has the cluster of its own non-zero port or the service's, and its percentage, or all, rounded down to millionths |
| RouteMeaning.HashPolicyIff | internal/model/utils.go:54-76 | The hash header is that of the rule's own policy without a subset, else that of the first subset of the name |
| RouteMeaning.HashPoliciesExact | internal/model/utils.go:54-67 | The hash headers are, in order, those of the destinations that have one |
| RouteMeaning.TranslateAccepted | internal/xds/cache_mgr.go:207-307 | What the webhook accepts goes through both translations: neither meets a null |
| RouteMeaning.RoutingSurvives | internal/xds/utils.go:36-137 | For accepted rules with patterns, every request selects the same route index in the rules and in the final configuration, with the same shares, mirror, hash headers and mutations |
| RouteMeaning.DefaultRoutesEverything | internal/xds/cache_mgr.go:309-335 | Without a router every request goes to the service's own cluster and port, hashed on the rule's own header if it has one, with no mirror and no mutation |
| RouteCache.GovernsIff | internal/model/utils.go:87-97 | A rule is for an entry exactly if the dotted names are the same string, the short names and namespaces are the same, or the long name is the short one in its namespace of the cluster domain |
| RouteCache.FindRelatedDestinationRule | internal/xds/cache_mgr.go:376-393 | The first rule whose host is the entry's first host, or none if there is none |
| RouteCache.FindRelatedServiceEntry | internal/xds/cache_mgr.go:337-353 | The first entry whose fully qualified first host is the rule's, if no entry before it lacks hosts |
| RouteCache.FindRelatedMetaRouter | internal/xds/cache_mgr.go:355-374 | The first router for the host, if it has routes, else none |
| RouteCache.IsMetaProtocolService | internal/xds/cache_mgr.go:198-205 | Some port announces MetaProtocol |
| RouteCache.BuildRoute | internal/xds/cache_mgr.go:186-191 | The translation of the MetaRouter's rules if there is a router, the default route otherwise, under the port's route name |
| RouteCache.GenerateMetaRoutes | internal/xds/cache_mgr.go:141-196 | One configuration per MetaProtocol port, in order, each built from its service, port, related MetaRouter and related DestinationRule |
| CacheInvalidation.OnServiceEntry | internal/controller/istio/controller.go:167-243 | Pushed exactly when the spec changed and both filters let the old or new entry through |
| CacheInvalidation.OnDestinationRule | internal/xds/cache_mgr.go:396-444 | The same for a DestinationRule, through the entries it relates to |
| CacheInvalidation.ShouldHandleDestinationRule | internal/controller/istio/controller.go:275-304 | Some entry with a supported port has the rule's host among its hosts |
| CacheInvalidation.HandlesRuleIff | internal/controller/istio/controller.go:275-304 | A rule passes the first filter exactly if some entry with a port of a registered protocol has its host among its hosts |
| CacheInvalidation.RuleNeedsUpdateIff | internal/xds/cache_mgr.go:415-444 | A rule passes the second filter exactly if the first entry it is for has a port named tcp-metaprotocol… |
| CacheInvalidation.EntryEventPushedIff | internal/xds/cache_mgr.go:396-444 | A ServiceEntry event that changes what the routes are built from is pushed if and only if the old or new entry has a port named tcp-metaprotocol… |
| CacheInvalidation.EntryInvalidationComplete | internal/controller/istio/controller.go:167-243 | With conventional port names no ServiceEntry event that changes the possible output of the generation is missed |
| CacheInvalidation.RuleEventPushedIff | internal/xds/cache_mgr.go:415-433 | A DestinationRule event that changes what the routes are built from is pushed if and only if the first entry with that first host has such a port |
| CacheInvalidation.RuleInvalidationComplete | internal/controller/istio/controller.go:275-304 | With conventional port names and different first hosts no DestinationRule event that changes the possible output of the generation is missed |
| CacheInvalidation.UnconventionalPortIsMissed | internal/xds/cache_mgr.go:435-443 | After adding a service whose MetaProtocol port is named otherwise no output of the generation is what it was, and the event is missed |
| CacheInvalidation.UnconventionalName | internal/model/protocol/instance.go:65-119 | Every transport-metaprotocol-application name with another transport than tcp is such a port |
| CacheInvalidation.SharedHostIsMissed | internal/xds/cache_mgr.go:337-353 | With two services of the same first host, of which only the second has a MetaProtocol port, a new rule that sets a hash header changes every output of the generation and is missed |
| Protocols.SameHostIff | internal/model/utils.go:87-97 | Exactly when two names in their namespaces are the same host, without naming the expansion |
| Protocols.TwoPartName | internal/model/protocol/instance.go:65-119 | A port name transport-protocol announces exactly the protocol registered under the second part in lower case, or none, whatever the transport part |
| Protocols.ThreePartName | internal/model/metaprotocol/application_protocol.go:46-52 | So does transport-protocol-application, and its third part is the application protocol |
| Protocols.OnePartName | internal/model/protocol/instance.go:112-119 | A name without a dash announces nothing |
| RouteNames.GenerateSidecarEnvoyFilters | internal/plugin/metaprotocol/generator.go:83-107 | Subscribes to one route name per MetaProtocol port, or fails exactly if a port's application protocol has no codec or the inbound filters cannot be built |
| RouteNames.PortFailsIff | internal/model/metaprotocol/application_protocol.go:36-52 | For a three-part name it is the third part that needs a codec |
| RouteNames.PathsAgree | internal/xds/cache_mgr.go:178-192 | What a service subscribes to is, name by name, what the cache builds for it |
| RouteNames.SubscribedIsPublished | internal/plugin/metaprotocol/metaprotocolproxy.go:46-49 | Every subscribed name is published in every output of the generation from the same store |
| RouteNames.PublishedOnce | internal/model/utils.go:48-50 | With different first hosts and port numbers every name is published exactly once |
| RouteDelivery.SubscriptionFindsItsRoutes | internal/xds/cache_mgr.go:141-229 | In every output of the generation the subscribed name is at exactly one place, and what is there is built for that service and that port |
| RouteDelivery.ProxyRoutesAsRouterSays | internal/xds/cache_mgr.go:141-307 | What a proxy gets under its subscribed name, in every output of the generation, routes every request as the service's accepted MetaRouter says |
| RouteDelivery.ProxyRoutesByDefault | internal/xds/cache_mgr.go:141-335 | What a proxy of a service without a MetaRouter gets sends every request to the service's own cluster |

## Left out

- VipAllocator.ServiceEntryController.NextAvailableIP: is stated for searches that can end, because the source's loop never returns on a full pool; `VipRoom.SearchEndsIffRoom` says exactly which those are.
- VipAllocator.Client.Update: a failed update changes nothing; one that took effect although its reply was lost is not modelled.
- VipRestart.RestartKeepsVipsIff: is about runs whose updates succeed; `VipRestart.RestartKeepsVipsUnderFaultsIff` is about all runs of reconciles.
- FilterDiff.ApiServer.Issue: a failed write changes nothing; one that took effect although its reply was lost is not modelled, so that half of `FilterConvergence.ConvergedIffAllOk`, that a failed call leaves the store out of date, rests on this choice.
- AuthzMatchers.LeadingStarIff: is stated for values whose rest is a pattern of literals, `.`, `.*` and `.+`; what other patterns mean to RE2 is not modelled.
- RouteValidation.ValidateMetaRoute: null key-value pairs in mutations, which the source dereferences, are not modelled.
- RouteMeaning.RoutingSurvives: is stated for attributes that have a pattern and for at most 42,949,673 destinations; `RouteMeaning.MatchIsFaithfulIff` says exactly when a match outside the first limit is faithful, and `RouteValidation.WeightCheckIsExactIff` that beyond the second the accepted weights need not add up to 100.
- CacheInvalidation.EntryInvalidationComplete: assumes conventional port names; the exact condition is `CacheInvalidation.EntryEventPushedIff`.
- RouteCache.GenerateMetaRoutes: is stated for MetaRouters without null routes or destinations, which the source dereferences; `RouteMeaning.TranslateAccepted` shows that what the webhook accepts has none.
- RouteCache.FindRelatedServiceEntry: is stated for lists in which every entry up to the related one has a host, because the source indexes the first host of each.
- CacheInvalidation.OnDestinationRule: the same, for the lists that its event really searches.
- RouteNames.GenerateSidecarEnvoyFilters: is stated for services in which no MetaProtocol port with a two-part name is reached, because the source indexes the third part; which rate limits make the inbound filters fail is an input.
- AuthzDubbo.PolicyMeansWhatItSays: covers values inside the modelled pattern fragment; full RE2 is not modelled.
- Informer caches that lag behind the API server: lookups see the store as it is, or fail.
- The events of the API server that schedule reconciles, leader election, and controller-runtime's own retries.
- The debouncer: one callback consumes at least one pending event. The channel's capacity of 100 and blocking senders are not modelled.
- Which filters are generated from the configuration: the generated set is an input of the diff.
- The listener diff for gateways, gateway filters, and the VirtualService and Gateway event filters.
- The policy table of the authorization builder, whose inner loop index shadows the outer one; the theorems are per rule.
- Trust domain aliases, which rewrite the values of a rule before generation.
- Hosts, rate limits and warnings of a MetaRouter, which the webhook also validates; the syntax of DNS names and labels is a parameter.
- Floating point: mirror percentages are real numbers.
- Lower-casing of protocol names is that of ASCII letters.
- The Redis, Thrift, Kafka and ZooKeeper plugins, which mostly copy fields, and the snapshot cache and its versions.

/**
  From a MetaRouter to the proxy: the route configuration that a sidecar filter subscribes to is the
  only one of its name, and it routes every request as the service's MetaRouter says.
 */
module RouteDelivery {
  import opened Mesh
  import opened Text
  import opened MetaRouting
  import opened RouteValidation
  import opened RouteTranslation
  import opened RouteMeaning
  import opened RouteCache
  import opened RouteNames

  lemma {:induction false} PortHasBlueprint(ports: seq<ServicePort>, j: nat, se: ServiceEntry, router: Option<MetaRouter>, dr: Option<DestinationRule>, protocols: Registry)
    requires j < |ports| && IsMeta(protocols, ports[j])
    ensures Blueprint(se, ports[j], router, dr) in PortBlueprints(ports, se, router, dr, protocols)
  {
    if j < |ports| - 1 {
      PortHasBlueprint(ports[..|ports| - 1], j, se, router, dr, protocols);
    }
  }

  lemma EntryHasBlueprint(entries: Entries, k: nat, b: Blueprint, rules: seq<Config<DestinationRule>>, routers: seq<MetaRouter>, protocols: Registry)
    requires k < |entries| && b in EntryBlueprints(entries[k], rules, routers, protocols)
    ensures b in Blueprints(entries, rules, routers, protocols)
  {
    FlatMapHas(entries, k, (se: Config<ServiceEntry>) => EntryBlueprints(se, rules, routers, protocols));
  }

  /** The MetaProtocol port `j` of service `k`. */
  predicate IsSubscribed(entries: Entries, k: nat, j: nat, protocols: Registry) {
    k < |entries| && entries[k].spec.hosts != [] && j < |entries[k].spec.ports| && IsMeta(protocols, entries[k].spec.ports[j])
  }

  function BlueprintFor(entries: Entries, k: nat, j: nat, rules: seq<Config<DestinationRule>>, routers: seq<MetaRouter>): Blueprint
    requires k < |entries| && entries[k].spec.hosts != [] && j < |entries[k].spec.ports|
  {
    var se := entries[k];
    Blueprint(se.spec, se.spec.ports[j], RelatedRouter(routers, se.spec.hosts[0]), RelatedRule(rules, se))
  }

  /** In every output of the generation, for every MetaProtocol port of every service: the subscribed name
      is published at exactly one place, and what is there is built for this service and this port. */
  lemma SubscriptionFindsItsRoutes(routes: seq<RouteConfiguration>, entries: Entries, k: nat, j: nat, rules: seq<Config<DestinationRule>>,
                                   routers: seq<MetaRouter>, protocols: Registry, clusterName: ClusterName)
    requires Generated(routes, entries, rules, routers, protocols, clusterName) && WellSeparated(entries)
    requires IsSubscribed(entries, k, j, protocols)
    ensures var b := BlueprintFor(entries, k, j, rules, routers);
            exists i :: && 0 <= i < |routes| && Builds(routes[i], b, clusterName)
                        && forall i' :: 0 <= i' < |routes| && routes[i'].name == b.service.hosts[0] + "_" + Itoa(b.port.number) ==> i' == i
  {
    var b, blueprints := BlueprintFor(entries, k, j, rules, routers), Blueprints(entries, rules, routers, protocols);
    PortHasBlueprint(b.service.ports, j, b.service, b.router, b.rule, protocols);
    EntryHasBlueprint(entries, k, b, rules, routers, protocols);
    var i :| 0 <= i < |blueprints| && blueprints[i] == b;
    assert Builds(routes[i], b, clusterName);
    PublishedOnce(routes, entries, rules, routers, protocols, clusterName);
    forall i' | 0 <= i' < |routes| && routes[i'].name == routes[i].name
      ensures i' == i
    {
      assert NamesOf(routes)[i'] == NamesOf(routes)[i];
    }
  }

  /** If the service has an accepted MetaRouter whose attributes all have a pattern, what the proxy gets
      under the subscribed name, in every output of the generation, selects for every request the rule that
      the MetaRouter selects, and does with the request what that rule says. */
  lemma {:induction false} ProxyRoutesAsRouterSays(routes: seq<RouteConfiguration>, entries: Entries, k: nat, j: nat,
                                                   rules: seq<Config<DestinationRule>>, routers: seq<MetaRouter>, protocols: Registry,
                                                   clusterName: ClusterName, c: Checks, config: RouteConfiguration,
                                                   path: string, req: Request, engine: Engine)
    requires Generated(routes, entries, rules, routers, protocols, clusterName) && WellSeparated(entries)
    requires IsSubscribed(entries, k, j, protocols) && HasPrefix(path, "/")
    requires config in routes && config.name == entries[k].spec.hosts[0] + "_" + Itoa(entries[k].spec.ports[j].number)
    requires RelatedRouter(routers, entries[k].spec.hosts[0]).Some?
    requires Translatable(RelatedRouter(routers, entries[k].spec.hosts[0]).value.routes, c)
    ensures var b := BlueprintFor(entries, k, j, rules, routers);
            var rules, http := b.router.value.routes, HttpConfigOf(config);
            && RulesPresent(rules)
            && HttpSelects(http, path, req, engine) == First(rules, (r: Option<MetaRoute>) => RulePicks(r, req, engine))
            && |http.virtualHosts[0].routes| == |rules|
            && forall i :: 0 <= i < |rules| ==> SameEffect(rules[i].value, http.virtualHosts[0].routes[i], b.port.number, b.rule, clusterName)
  {
    var b := BlueprintFor(entries, k, j, rules, routers);
    SubscriptionFindsItsRoutes(routes, entries, k, j, rules, routers, protocols, clusterName);
    var i :| 0 <= i < |routes| && routes[i] == config;
    assert Builds(config, b, clusterName);
    RoutingSurvives(b.router.value.routes, c, config, b.port.number, b.rule, clusterName, path, req, engine);
  }
  /** If the service has no MetaRouter, what the proxy gets sends every request to the service's own
      cluster. */
  lemma {:induction false} ProxyRoutesByDefault(routes: seq<RouteConfiguration>, entries: Entries, k: nat, j: nat,
                                                rules: seq<Config<DestinationRule>>, routers: seq<MetaRouter>, protocols: Registry,
                                                clusterName: ClusterName, config: RouteConfiguration,
                                                path: string, req: Request, engine: Engine)
    requires Generated(routes, entries, rules, routers, protocols, clusterName) && WellSeparated(entries)
    requires IsSubscribed(entries, k, j, protocols) && HasPrefix(path, "/")
    requires config in routes && config.name == entries[k].spec.hosts[0] + "_" + Itoa(entries[k].spec.ports[j].number)
    requires RelatedRouter(routers, entries[k].spec.hosts[0]).None?
    ensures var http := HttpConfigOf(config);
            && HttpSelects(http, path, req, engine) == Some(0)
            && http.virtualHosts[0].routes[0].action.cluster
               == Cluster(clusterName("", entries[k].spec.hosts[0], entries[k].spec.ports[j].number))
  {
    var b := BlueprintFor(entries, k, j, rules, routers);
    SubscriptionFindsItsRoutes(routes, entries, k, j, rules, routers, protocols, clusterName);
    var i :| 0 <= i < |routes| && routes[i] == config;
    assert Builds(config, b, clusterName);
    DefaultRoutesEverything(b.service.hosts[0], b.port.number, b.rule, clusterName, path, req, engine, "");
  }
}

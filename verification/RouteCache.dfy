/**
  The route cache: the route configurations generated from the ServiceEntries, DestinationRules and
  MetaRouters of the mesh.
 */
module RouteCache {
  import opened Mesh
  import opened Text
  import opened Protocols
  import opened MetaRouting
  import opened RouteTranslation

  type Registry = map<string, Instance>

  datatype Config<+T> = Config(namespace: string, name: string, spec: T)

  datatype MetaRouter = MetaRouter(hosts: seq<string>, routes: seq<Option<MetaRoute>>)

  /** What one route configuration is built from: a port of a service, with the MetaRouter and the
      DestinationRule that relate to the service. */
  datatype Blueprint = Blueprint(service: ServiceEntry, port: ServicePort, router: Option<MetaRouter>, rule: Option<DestinationRule>)

  predicate IsMeta(protocols: Registry, port: ServicePort) {
    Layer7(protocols, port.name) == MetaProtocol
  }

  predicate IsSupported(protocols: Registry, port: ServicePort) {
    Layer7(protocols, port.name) != Unsupported
  }

  predicate IsTcpMeta(port: ServicePort) {
    HasPrefix(port.name, "tcp-metaprotocol")
  }

  predicate Any<T>(xs: seq<T>, p: T -> bool) {
    exists i :: 0 <= i < |xs| && p(xs[i])
  }

  /** The search loop: stop at the first element that satisfies the predicate. */
  method SearchAny<T>(xs: seq<T>, p: T -> bool) returns (r: bool)
    ensures r == Any(xs, p)
  {
    for i := 0 to |xs|
      invariant forall j :: 0 <= j < i ==> !p(xs[j])
    {
      if p(xs[i]) {
        return true;
      }
    }
    return false;
  }

  predicate HasMetaPort(protocols: Registry, se: ServiceEntry) {
    Any(se.ports, (port: ServicePort) => IsMeta(protocols, port))
  }

  predicate HasSupportedPort(protocols: Registry, se: ServiceEntry) {
    Any(se.ports, (port: ServicePort) => IsSupported(protocols, port))
  }

  predicate HasTcpMetaPort(se: ServiceEntry) {
    Any(se.ports, (port: ServicePort) => IsTcpMeta(port))
  }

  // --- Searches ---

  predicate IsFirst<T>(xs: seq<T>, p: T -> bool, i: int) {
    0 <= i < |xs| && p(xs[i]) && forall j :: 0 <= j < i ==> !p(xs[j])
  }

  function Find<T>(xs: seq<T>, p: T -> bool): (r: Option<T>)
    ensures r.Some? ==> r.value in xs && exists i :: IsFirst(xs, p, i) && xs[i] == r.value
    ensures r.None? <==> forall x :: x in xs ==> !p(x)
  {
    if xs == [] then None
    else if p(xs[0]) then
      assert IsFirst(xs, p, 0);
      Some(xs[0])
    else
      assert forall i :: IsFirst(xs[1..], p, i) ==> IsFirst(xs, p, i + 1);
      Find(xs[1..], p)
  }

  predicate Governs(dr: Config<DestinationRule>, se: Config<ServiceEntry>) {
    se.spec.hosts != [] && IsFQDNEquals(dr.spec.host, dr.namespace, se.spec.hosts[0], se.namespace)
  }

  /** When a rule is for an entry, by the entry's first host. */
  lemma GovernsIff(dr: Config<DestinationRule>, se: Config<ServiceEntry>)
    requires se.spec.hosts != []
    ensures var name, host := dr.spec.host, se.spec.hosts[0];
            && ('.' in name && '.' in host ==> (Governs(dr, se) <==> name == host))
            && ('.' !in name && '.' !in host ==> (Governs(dr, se) <==> name == host && dr.namespace == se.namespace))
            && ('.' !in name && '.' in host ==> (Governs(dr, se) <==> host == name + "." + dr.namespace + ".svc.cluster.local"))
            && ('.' in name && '.' !in host ==> (Governs(dr, se) <==> name == host + "." + se.namespace + ".svc.cluster.local"))
  {
    SameHostIff(dr.spec.host, dr.namespace, se.spec.hosts[0], se.namespace);
  }

  function RelatedRule(rules: seq<Config<DestinationRule>>, se: Config<ServiceEntry>): Option<DestinationRule> {
    var r := Find(rules, (dr: Config<DestinationRule>) => Governs(dr, se));
    if r.Some? then Some(r.value.spec) else None
  }

  function RelatedEntry(entries: seq<Config<ServiceEntry>>, dr: Config<DestinationRule>): Option<Config<ServiceEntry>> {
    Find(entries, (se: Config<ServiceEntry>) => Governs(dr, se))
  }

  /** The search looks at the first host of every entry up to the related one, so those have one. */
  ghost predicate Searchable(entries: seq<Config<ServiceEntry>>, dr: Config<DestinationRule>) {
    forall i :: 0 <= i < |entries| && entries[i].spec.hosts == [] ==> exists j :: 0 <= j < i && Governs(dr, entries[j])
  }

  /** The first MetaRouter for the host, if it has routes. */
  function RelatedRouter(routers: seq<MetaRouter>, host: string): Option<MetaRouter> {
    var r := Find(routers, (m: MetaRouter) => host in m.hosts);
    if r.Some? && r.value.routes == [] then None else r
  }

  method FindRelatedDestinationRule(rules: seq<Config<DestinationRule>>, se: Config<ServiceEntry>) returns (dr: Option<DestinationRule>)
    requires se.spec.hosts != []
    ensures dr == RelatedRule(rules, se)
    ensures dr.None? <==> forall i :: 0 <= i < |rules| ==> !Governs(rules[i], se)
    ensures dr.Some? ==> exists i :: && 0 <= i < |rules| && Governs(rules[i], se) && rules[i].spec == dr.value
                                     && forall j :: 0 <= j < i ==> !Governs(rules[j], se)
  {
    ghost var p := (dr: Config<DestinationRule>) => Governs(dr, se);
    for i := 0 to |rules|
      invariant Find(rules, p) == Find(rules[i..], p)
      invariant forall j :: 0 <= j < i ==> !Governs(rules[j], se)
    {
      assert rules[i..][0] == rules[i] && rules[i..][1..] == rules[i + 1..];
      if IsFQDNEquals(rules[i].spec.host, rules[i].namespace, se.spec.hosts[0], se.namespace) {
        return Some(rules[i].spec);
      }
    }
    return None;
  }

  method FindRelatedServiceEntry(entries: seq<Config<ServiceEntry>>, dr: Config<DestinationRule>) returns (se: Option<Config<ServiceEntry>>)
    requires Searchable(entries, dr)
    ensures se == RelatedEntry(entries, dr)
    ensures se.None? <==> forall i :: 0 <= i < |entries| ==> !Governs(dr, entries[i])
    ensures se.Some? ==> exists i :: && 0 <= i < |entries| && Governs(dr, entries[i]) && entries[i] == se.value
                                     && forall j :: 0 <= j < i ==> !Governs(dr, entries[j])
  {
    ghost var p := (se: Config<ServiceEntry>) => Governs(dr, se);
    for i := 0 to |entries|
      invariant Find(entries, p) == Find(entries[i..], p)
      invariant forall j :: 0 <= j < i ==> !Governs(dr, entries[j])
    {
      assert entries[i..][0] == entries[i] && entries[i..][1..] == entries[i + 1..];
      if IsFQDNEquals(dr.spec.host, dr.namespace, entries[i].spec.hosts[0], entries[i].namespace) {
        return Some(entries[i]);
      }
    }
    return None;
  }

  method FindRelatedMetaRouter(routers: seq<MetaRouter>, host: string) returns (router: Option<MetaRouter>)
    ensures router == RelatedRouter(routers, host)
    ensures router.None? ==> forall i :: 0 <= i < |routers| && host in routers[i].hosts && routers[i].routes != [] ==>
                               exists j :: 0 <= j < i && host in routers[j].hosts
    ensures router.Some? ==> exists i :: && 0 <= i < |routers| && host in routers[i].hosts && routers[i].routes != [] && routers[i] == router.value
                                         && forall j :: 0 <= j < i ==> host !in routers[j].hosts
  {
    ghost var p := (m: MetaRouter) => host in m.hosts;
    for i := 0 to |routers|
      invariant Find(routers, p) == Find(routers[i..], p)
      invariant forall j :: 0 <= j < i ==> host !in routers[j].hosts
    {
      assert routers[i..][0] == routers[i] && routers[i..][1..] == routers[i + 1..];
      for j := 0 to |routers[i].hosts|
        invariant host !in routers[i].hosts[..j]
      {
        if routers[i].hosts[j] == host {
          assert host in routers[i].hosts;
          if |routers[i].routes| > 0 {
            return Some(routers[i]);
          }
          return None;
        }
      }
      assert routers[i].hosts[..|routers[i].hosts|] == routers[i].hosts;
    }
    return None;
  }

  // --- Generation ---

  function PortBlueprints(ports: seq<ServicePort>, se: ServiceEntry, router: Option<MetaRouter>, dr: Option<DestinationRule>, protocols: Registry): seq<Blueprint> {
    if ports == [] then []
    else
      var last := ports[|ports| - 1];
      PortBlueprints(ports[..|ports| - 1], se, router, dr, protocols)
      + (if IsMeta(protocols, last) then [Blueprint(se, last, router, dr)] else [])
  }

  /** What the routes of one ServiceEntry are built from. */
  function EntryBlueprints(se: Config<ServiceEntry>, rules: seq<Config<DestinationRule>>, routers: seq<MetaRouter>, protocols: Registry): seq<Blueprint> {
    if se.spec.hosts == [] then []
    else PortBlueprints(se.spec.ports, se.spec, RelatedRouter(routers, se.spec.hosts[0]), RelatedRule(rules, se), protocols)
  }

  function FlatMap<T, U>(xs: seq<T>, f: T -> seq<U>): seq<U> {
    if xs == [] then [] else FlatMap(xs[..|xs| - 1], f) + f(xs[|xs| - 1])
  }

  function Blueprints(entries: seq<Config<ServiceEntry>>, rules: seq<Config<DestinationRule>>, routers: seq<MetaRouter>, protocols: Registry): seq<Blueprint> {
    FlatMap(entries, (se: Config<ServiceEntry>) => EntryBlueprints(se, rules, routers, protocols))
  }

  /** The configuration is one that can be built: the translation of the MetaRouter's rules, for some
      order of the header matchers, or the default route. */
  ghost predicate Builds(config: RouteConfiguration, b: Blueprint, clusterName: ClusterName) {
    && b.service.hosts != []
    && config.name == RouteName(b.service.hosts[0], b.port.number)
    && match b.router
       case None => config == DefaultRoute(b.service.hosts[0], b.port.number, b.rule, clusterName)
       case Some(router) =>
         RulesPresent(router.routes) && TranslatesAll(router.routes, config.routes, b.port.number, b.rule, clusterName)
  }

  ghost predicate Built(routes: seq<RouteConfiguration>, blueprints: seq<Blueprint>, clusterName: ClusterName) {
    |routes| == |blueprints| && forall i :: 0 <= i < |routes| ==> Builds(routes[i], blueprints[i], clusterName)
  }

  /** The routes are an output of the generation for these objects. */
  ghost predicate Generated(routes: seq<RouteConfiguration>, entries: seq<Config<ServiceEntry>>, rules: seq<Config<DestinationRule>>,
                            routers: seq<MetaRouter>, protocols: Registry, clusterName: ClusterName) {
    Built(routes, Blueprints(entries, rules, routers, protocols), clusterName)
  }

  lemma {:induction false} FlatMapConcat<T, U>(a: seq<T>, b: seq<T>, f: T -> seq<U>)
    ensures FlatMap(a + b, f) == FlatMap(a, f) + FlatMap(b, f)
  {
    if b == [] {
      assert a + b == a;
    } else {
      assert (a + b)[..|a + b| - 1] == a + b[..|b| - 1];
      FlatMapConcat(a, b[..|b| - 1], f);
    }
  }

  lemma FlatMapAround<T, U>(pre: seq<T>, x: T, post: seq<T>, f: T -> seq<U>)
    ensures FlatMap(pre + [x] + post, f) == FlatMap(pre, f) + f(x) + FlatMap(post, f)
    ensures f(x) == [] ==> FlatMap(pre + [x] + post, f) == FlatMap(pre + post, f)
  {
    FlatMapConcat(pre + [x], post, f);
    FlatMapConcat(pre, [x], f);
    FlatMapConcat(pre, post, f);
    assert [x][..0] == [] && FlatMap([x], f) == f(x);
  }

  lemma FlatMapHas<T, U>(xs: seq<T>, k: nat, f: T -> seq<U>)
    requires k < |xs|
    ensures forall y :: y in f(xs[k]) ==> y in FlatMap(xs, f)
  {
    assert xs == xs[..k] + [xs[k]] + xs[k + 1..];
    FlatMapAround(xs[..k], xs[k], xs[k + 1..], f);
  }

  /** Different results come from an element on which the functions differ. */
  lemma {:induction false} FlatMapDiffers<T, U>(xs: seq<T>, f: T -> seq<U>, g: T -> seq<U>) returns (i: nat)
    requires FlatMap(xs, f) != FlatMap(xs, g)
    ensures i < |xs| && f(xs[i]) != g(xs[i])
  {
    if f(xs[|xs| - 1]) != g(xs[|xs| - 1]) {
      i := |xs| - 1;
    } else {
      i := FlatMapDiffers(xs[..|xs| - 1], f, g);
    }
  }

  method IsMetaProtocolService(protocols: Registry, se: ServiceEntry) returns (r: bool)
    ensures r == HasMetaPort(protocols, se)
  {
    r := SearchAny(se.ports, (port: ServicePort) => IsMeta(protocols, port));
  }

  lemma {:induction false} NoMetaNoRoutes(ports: seq<ServicePort>, se: ServiceEntry, router: Option<MetaRouter>, dr: Option<DestinationRule>, protocols: Registry)
    requires forall i :: 0 <= i < |ports| ==> !IsMeta(protocols, ports[i])
    ensures PortBlueprints(ports, se, router, dr, protocols) == []
  {
    if ports != [] {
      NoMetaNoRoutes(ports[..|ports| - 1], se, router, dr, protocols);
    }
  }

  /** No router has a null route or destination, as the webhook sees to. */
  ghost predicate RoutersPresent(routers: seq<MetaRouter>) {
    forall router :: router in routers ==> RulesPresent(router.routes)
  }

  method BuildRoute(b: Blueprint, clusterName: ClusterName) returns (config: RouteConfiguration)
    requires b.service.hosts != [] && (b.router.Some? ==> RulesPresent(b.router.value.routes))
    ensures Builds(config, b, clusterName)
  {
    if b.router.Some? {
      config := ConstructRoute(b.service.hosts[0], b.port.number, b.router.value.routes, b.rule, clusterName);
    } else {
      config := DefaultRoute(b.service.hosts[0], b.port.number, b.rule, clusterName);
    }
  }

  method GeneratePortRoutes(service: ServiceEntry, router: Option<MetaRouter>, dr: Option<DestinationRule>, protocols: Registry, clusterName: ClusterName)
    returns (routes: seq<RouteConfiguration>)
    requires service.hosts != [] && (router.Some? ==> RulesPresent(router.value.routes))
    ensures Built(routes, PortBlueprints(service.ports, service, router, dr, protocols), clusterName)
  {
    routes := [];
    for i := 0 to |service.ports|
      invariant Built(routes, PortBlueprints(service.ports[..i], service, router, dr, protocols), clusterName)
    {
      assert service.ports[..i + 1][..i] == service.ports[..i];
      if Layer7(protocols, service.ports[i].name) == MetaProtocol {
        var config := BuildRoute(Blueprint(service, service.ports[i], router, dr), clusterName);
        routes := routes + [config];
      }
    }
    assert service.ports[..|service.ports|] == service.ports;
  }

  method GenerateEntryRoutes(se: Config<ServiceEntry>, rules: seq<Config<DestinationRule>>, routers: seq<MetaRouter>, protocols: Registry, clusterName: ClusterName)
    returns (routes: seq<RouteConfiguration>)
    requires RoutersPresent(routers)
    ensures Built(routes, EntryBlueprints(se, rules, routers, protocols), clusterName)
  {
    routes := [];
    var service := se.spec;
    if |service.ports| == 0 {
      return;
    }
    var isMeta := IsMetaProtocolService(protocols, service);
    if !isMeta {
      if service.hosts != [] {
        NoMetaNoRoutes(service.ports, service, RelatedRouter(routers, service.hosts[0]), RelatedRule(rules, se), protocols);
      }
      return;
    }
    if |service.hosts| == 0 {
      return;
    }
    var router := FindRelatedMetaRouter(routers, service.hosts[0]);
    var dr := FindRelatedDestinationRule(rules, se);
    routes := GeneratePortRoutes(service, router, dr, protocols, clusterName);
  }

  method GenerateMetaRoutes(entries: seq<Config<ServiceEntry>>, rules: seq<Config<DestinationRule>>, routers: seq<MetaRouter>, protocols: Registry, clusterName: ClusterName)
    returns (routes: seq<RouteConfiguration>)
    requires RoutersPresent(routers)
    ensures Generated(routes, entries, rules, routers, protocols, clusterName)
  {
    routes := [];
    for i := 0 to |entries|
      invariant Generated(routes, entries[..i], rules, routers, protocols, clusterName)
    {
      assert entries[..i + 1][..i] == entries[..i];
      var of := GenerateEntryRoutes(entries[i], rules, routers, protocols, clusterName);
      BuiltConcat(routes, of, Blueprints(entries[..i], rules, routers, protocols), EntryBlueprints(entries[i], rules, routers, protocols), clusterName);
      routes := routes + of;
    }
    assert entries[..|entries|] == entries;
  }

  lemma BuiltConcat(a: seq<RouteConfiguration>, b: seq<RouteConfiguration>, x: seq<Blueprint>, y: seq<Blueprint>, clusterName: ClusterName)
    requires Built(a, x, clusterName) && Built(b, y, clusterName)
    ensures Built(a + b, x + y, clusterName)
  {
  }
}

/**
  The two translations of MetaRouter routes: into MetaProtocol route configurations, whose header
  matchers come in whatever order a Go map is walked, and from there into the HTTP route
  configurations that are sent to the proxies.
 */
module RouteTranslation {
  import opened Mesh
  import opened Text
  import opened MetaRouting
  import opened RouteValidation

  datatype HeaderSpec = PresentMatch | ExactMatch(s: string) | PrefixMatch(s: string) | SafeRegexMatch(re: string)

  datatype HeaderMatcher = HeaderMatcher(name: string, spec: HeaderSpec)

  datatype ClusterWeight = ClusterWeight(name: string, weight: uint32)

  datatype ClusterSpecifier = Cluster(name: string) | WeightedClusters(clusters: seq<ClusterWeight>, totalWeight: uint32)

  /** A mirror cluster and the mirrored fraction, in millionths. */
  datatype MirrorPolicy = MirrorPolicy(cluster: string, numerator: int)

  datatype RouteAction = RouteAction(cluster: ClusterSpecifier, hashPolicy: seq<string>, mirrors: seq<MirrorPolicy>)

  datatype Route = Route(
    name: string,
    metadata: seq<HeaderMatcher>,
    action: RouteAction,
    requestMutation: seq<KeyValue>,
    responseMutation: seq<KeyValue>)

  datatype RouteConfiguration = RouteConfiguration(name: string, routes: seq<Route>)

  // --- Stage one: matches ---

  predicate IsCatchAll(attribute: Option<StringMatch>) {
    attribute.None? || (attribute.value.Regex? && attribute.value.re == "*")
  }

  function SpecOf(attribute: Option<StringMatch>): Option<HeaderSpec> {
    if IsCatchAll(attribute) then Some(PresentMatch)
    else
      match attribute.value
      case Exact(s) => Some(ExactMatch(s))
      case Prefix(s) => Some(PrefixMatch(s))
      case Regex(re) => Some(SafeRegexMatch(re))
      case NoPattern => None
  }

  ghost predicate Names(headers: seq<HeaderMatcher>, name: string) {
    exists i :: 0 <= i < |headers| && headers[i].name == name
  }

  /** The headers are, in some order, one for each attribute that has a specification. */
  ghost predicate HeadersFor(attributes: Option<Attributes>, headers: seq<HeaderMatcher>) {
    if attributes.None? then headers == []
    else
      && (forall i :: 0 <= i < |headers| ==> headers[i].name in attributes.value && SpecOf(attributes.value[headers[i].name]) == Some(headers[i].spec))
      && (forall i, j :: 0 <= i < j < |headers| ==> headers[i].name != headers[j].name)
      && (forall name :: name in attributes.value && SpecOf(attributes.value[name]).Some? ==> Names(headers, name))
  }

  method MetaMatch2HttpHeaderMatch(attributes: Option<Attributes>) returns (headers: seq<HeaderMatcher>)
    ensures HeadersFor(attributes, headers)
  {
    headers := [];
    if attributes.Some? {
      var left := attributes.value.Keys;
      while left != {}
        invariant left <= attributes.value.Keys
        invariant HeadersFor(Some(map name | name in attributes.value && name !in left :: attributes.value[name]), headers)
        decreases left
      {
        var name :| name in left;
        ghost var before := headers;
        ghost var done := map n | n in attributes.value && n !in left :: attributes.value[n];
        left := left - {name};
        var attribute := attributes.value[name];
        if IsCatchAll(attribute) {
          headers := headers + [HeaderMatcher(name, PresentMatch)];
        } else {
          match attribute.value
          case Exact(s) => headers := headers + [HeaderMatcher(name, ExactMatch(s))];
          case Prefix(s) => headers := headers + [HeaderMatcher(name, PrefixMatch(s))];
          case Regex(re) => headers := headers + [HeaderMatcher(name, SafeRegexMatch(re))];
          case NoPattern =>
        }
        assert SpecOf(attribute).Some? ==> headers[|before|].name == name;
        forall n | n in attributes.value && n !in left && SpecOf(attributes.value[n]).Some?
          ensures Names(headers, n)
        {
          if n != name {
            assert n in done && Names(before, n);
            var i :| 0 <= i < |before| && before[i].name == n;
            assert headers[i].name == n;
          }
        }
      }
      assert (map name | name in attributes.value && name !in left :: attributes.value[name]) == attributes.value;
    }
  }

  // --- Stage one: actions ---

  function PortOf(d: Destination, default: nat): nat {
    if d.port.Some? && d.port.value != 0 then d.port.value else default
  }

  function ClusterOf(d: Destination, port: nat, clusterName: ClusterName): string {
    clusterName(d.subset, d.host, PortOf(d, port))
  }

  function ClustersOf(ds: seq<Option<RouteDestination>>, port: nat, clusterName: ClusterName): seq<ClusterWeight>
    requires forall i :: 0 <= i < |ds| ==> ds[i].Some? && ds[i].value.destination.Some?
  {
    seq(|ds|, i requires 0 <= i < |ds| =>
      ClusterWeight(ClusterOf(ds[i].value.destination.value, port, clusterName), ds[i].value.weight))
  }

  function HashPolicies(ds: seq<Option<RouteDestination>>, dr: Option<DestinationRule>): seq<string>
    requires forall i :: 0 <= i < |ds| ==> ds[i].Some? && ds[i].value.destination.Some?
  {
    if ds == [] then []
    else
      var policy := GetHashPolicy(dr, ds[|ds| - 1].value.destination.value.subset);
      HashPolicies(ds[..|ds| - 1], dr) + (if policy != "" then [policy] else [])
  }

  /** The mirrored percentage; all of it when none is given. */
  function MirrorPercent(route: MetaRoute): real {
    if route.mirrorPercentage.Some? && route.mirrorPercentage.value != 0.0 then route.mirrorPercentage.value else 100.0
  }

  function MirrorsOf(route: MetaRoute, port: nat, clusterName: ClusterName): seq<MirrorPolicy> {
    if route.mirror.None? then []
    else [MirrorPolicy(ClusterOf(route.mirror.value, port, clusterName), (MirrorPercent(route) * 10000.0).Floor)]
  }

  function ActionOf(port: nat, route: MetaRoute, dr: Option<DestinationRule>, clusterName: ClusterName): RouteAction
    requires NoNull(route)
  {
    var ds := route.destinations;
    RouteAction(
      if |ds| == 1 then Cluster(ClusterOf(ds[0].value.destination.value, port, clusterName))
      else WeightedClusters(ClustersOf(ds, port, clusterName), WrappedSum(ds)),
      HashPolicies(ds, dr),
      MirrorsOf(route, port, clusterName))
  }

  method DestinationCluster(d: Destination, port: nat, clusterName: ClusterName) returns (name: string)
    ensures name == ClusterOf(d, port, clusterName)
  {
    var dstPort := port;
    if d.port.Some? && d.port.value != 0 {
      dstPort := d.port.value;
    }
    name := clusterName(d.subset, d.host, dstPort);
  }

  method ConstructWeightedClusters(port: nat, ds: seq<Option<RouteDestination>>, dr: Option<DestinationRule>, clusterName: ClusterName)
    returns (clusters: seq<ClusterWeight>, totalWeight: uint32, hashPolicy: seq<string>)
    requires forall i :: 0 <= i < |ds| ==> ds[i].Some? && ds[i].value.destination.Some?
    ensures clusters == ClustersOf(ds, port, clusterName)
    ensures totalWeight == WrappedSum(ds) && hashPolicy == HashPolicies(ds, dr)
  {
    clusters, totalWeight, hashPolicy := [], 0, [];
    for i := 0 to |ds|
      invariant clusters == ClustersOf(ds[..i], port, clusterName)
      invariant totalWeight == WrappedSum(ds[..i])
      invariant hashPolicy == HashPolicies(ds[..i], dr)
    {
      assert ds[..i + 1][..i] == ds[..i];
      var d := ds[i].value.destination.value;
      var name := DestinationCluster(d, port, clusterName);
      clusters := clusters + [ClusterWeight(name, ds[i].value.weight)];
      var policy := GetHashPolicy(dr, d.subset);
      if policy != "" {
        hashPolicy := hashPolicy + [policy];
      }
      totalWeight := (totalWeight + ds[i].value.weight) % UINT32_RANGE;
    }
    assert ds[..|ds|] == ds;
  }

  method ConstructMirrors(port: nat, route: MetaRoute, clusterName: ClusterName) returns (mirrors: seq<MirrorPolicy>)
    ensures mirrors == MirrorsOf(route, port, clusterName)
  {
    mirrors := [];
    if route.mirror.Some? {
      var name := DestinationCluster(route.mirror.value, port, clusterName);
      var mirrorPercent := 100.0;
      if route.mirrorPercentage.Some? && route.mirrorPercentage.value != 0.0 {
        mirrorPercent := route.mirrorPercentage.value;
      }
      mirrors := [MirrorPolicy(name, (mirrorPercent * 10000.0).Floor)];
    }
  }

  method ConstructAction(port: nat, route: MetaRoute, dr: Option<DestinationRule>, clusterName: ClusterName)
    returns (action: RouteAction)
    requires NoNull(route)
    ensures action == ActionOf(port, route, dr, clusterName)
  {
    var cluster: ClusterSpecifier;
    var hashPolicy: seq<string> := [];
    var ds := route.destinations;
    if |ds| == 1 {
      var d := ds[0].value.destination.value;
      var name := DestinationCluster(d, port, clusterName);
      cluster := Cluster(name);
      var policy := GetHashPolicy(dr, d.subset);
      if policy != "" {
        hashPolicy := [policy];
      }
      assert ds[..0] == [] && HashPolicies(ds[..0], dr) == [];
      assert hashPolicy == HashPolicies(ds, dr);
    } else {
      var clusters, totalWeight;
      clusters, totalWeight, hashPolicy := ConstructWeightedClusters(port, ds, dr, clusterName);
      cluster := WeightedClusters(clusters, totalWeight);
    }
    var mirrors := ConstructMirrors(port, route, clusterName);
    action := RouteAction(cluster, hashPolicy, mirrors);
  }

  /** A stage-one translation of the rule. */
  ghost predicate Translates(rule: MetaRoute, route: Route, port: nat, dr: Option<DestinationRule>, clusterName: ClusterName)
    requires NoNull(rule)
  {
    && route.name == rule.name
    && HeadersFor(rule.attributes, route.metadata)
    && route.action == ActionOf(port, rule, dr, clusterName)
    && route.requestMutation == rule.requestMutation && route.responseMutation == rule.responseMutation
  }

  predicate RulesPresent(rules: seq<Option<MetaRoute>>) {
    forall i :: 0 <= i < |rules| ==> rules[i].Some? && NoNull(rules[i].value)
  }

  ghost predicate TranslatesAll(rules: seq<Option<MetaRoute>>, routes: seq<Route>, port: nat, dr: Option<DestinationRule>, clusterName: ClusterName)
    requires RulesPresent(rules)
  {
    |routes| == |rules| && forall i :: 0 <= i < |rules| ==> Translates(rules[i].value, routes[i], port, dr, clusterName)
  }

  method ConstructMutation(mutation: seq<KeyValue>) returns (result: seq<KeyValue>)
    ensures result == mutation
  {
    result := [];
    for i := 0 to |mutation|
      invariant result == mutation[..i]
    {
      result := result + [KeyValue(mutation[i].key, mutation[i].value)];
    }
  }

  /** The name a proxy subscribes to for a port of a service. */
  function RouteName(host: string, port: nat): string {
    host + "_" + Itoa(port)
  }

  method ConstructRoute(host: string, port: nat, rules: seq<Option<MetaRoute>>, dr: Option<DestinationRule>, clusterName: ClusterName)
    returns (config: RouteConfiguration)
    requires RulesPresent(rules)
    ensures config.name == RouteName(host, port) && TranslatesAll(rules, config.routes, port, dr, clusterName)
  {
    var routes: seq<Route> := [];
    for i := 0 to |rules|
      invariant |routes| == i && forall j :: 0 <= j < i ==> Translates(rules[j].value, routes[j], port, dr, clusterName)
    {
      var rule := rules[i].value;
      var metadata := MetaMatch2HttpHeaderMatch(rule.attributes);
      var action := ConstructAction(port, rule, dr, clusterName);
      var requestMutation := ConstructMutation(rule.requestMutation);
      var responseMutation := ConstructMutation(rule.responseMutation);
      routes := routes + [Route(rule.name, metadata, action, requestMutation, responseMutation)];
    }
    config := RouteConfiguration(host + "_" + Itoa(port), routes);
  }

  /** A service without rules: everything to its own cluster. */
  function DefaultRoute(host: string, port: nat, dr: Option<DestinationRule>, clusterName: ClusterName): RouteConfiguration {
    var policy := GetHashPolicy(dr, "");
    RouteConfiguration(RouteName(host, port),
      [Route("default", [], RouteAction(Cluster(clusterName("", host, port)), if policy != "" then [policy] else [], []), [], [])])
  }

  // --- Stage two ---

  datatype HttpHashPolicy = HeaderHash(headerName: string)

  datatype HttpRouteAction = HttpRouteAction(cluster: ClusterSpecifier, mirrors: seq<MirrorPolicy>, hashPolicy: seq<HttpHashPolicy>)

  datatype HeaderValueOption = HeaderValueOption(key: string, value: string)

  datatype HttpRoute = HttpRoute(
    name: string,
    pathPrefix: string,
    headers: seq<HeaderMatcher>,
    action: HttpRouteAction,
    requestHeadersToAdd: seq<HeaderValueOption>,
    responseHeadersToAdd: seq<HeaderValueOption>)

  datatype VirtualHost = VirtualHost(name: string, domains: seq<string>, routes: seq<HttpRoute>)

  datatype HttpRouteConfiguration = HttpRouteConfiguration(name: string, virtualHosts: seq<VirtualHost>)

  function Hashes(policies: seq<string>): seq<HttpHashPolicy> {
    seq(|policies|, i requires 0 <= i < |policies| => HeaderHash(policies[i]))
  }

  function HeadersToAdd(mutation: seq<KeyValue>): seq<HeaderValueOption> {
    seq(|mutation|, i requires 0 <= i < |mutation| => HeaderValueOption(mutation[i].key, mutation[i].value))
  }

  function HttpRouteOf(route: Route): HttpRoute {
    HttpRoute(route.name, "/", route.metadata,
              HttpRouteAction(route.action.cluster, route.action.mirrors, Hashes(route.action.hashPolicy)),
              HeadersToAdd(route.requestMutation), HeadersToAdd(route.responseMutation))
  }

  function HttpConfigOf(config: RouteConfiguration): HttpRouteConfiguration {
    HttpRouteConfiguration(config.name,
      [VirtualHost("dummy", ["*"], seq(|config.routes|, i requires 0 <= i < |config.routes| => HttpRouteOf(config.routes[i])))])
  }

  method HttpHeaders(mutation: seq<KeyValue>) returns (headers: seq<HeaderValueOption>)
    ensures headers == HeadersToAdd(mutation)
  {
    headers := [];
    for i := 0 to |mutation|
      invariant headers == HeadersToAdd(mutation[..i])
    {
      headers := headers + [HeaderValueOption(mutation[i].key, mutation[i].value)];
    }
    assert mutation[..|mutation|] == mutation;
  }

  method BuildHttpRouteAction(action: RouteAction) returns (http: HttpRouteAction)
    ensures http == HttpRouteAction(action.cluster, action.mirrors, Hashes(action.hashPolicy))
  {
    var cluster := if action.cluster.WeightedClusters?
                   then WeightedClusters(action.cluster.clusters, action.cluster.totalWeight)
                   else Cluster(action.cluster.name);
    var mirrors: seq<MirrorPolicy> := [];
    for i := 0 to |action.mirrors|
      invariant mirrors == action.mirrors[..i]
    {
      mirrors := mirrors + [MirrorPolicy(action.mirrors[i].cluster, action.mirrors[i].numerator)];
    }
    var hashPolicy: seq<HttpHashPolicy> := [];
    for i := 0 to |action.hashPolicy|
      invariant hashPolicy == Hashes(action.hashPolicy[..i])
    {
      hashPolicy := hashPolicy + [HeaderHash(action.hashPolicy[i])];
    }
    assert action.hashPolicy[..|action.hashPolicy|] == action.hashPolicy;
    http := HttpRouteAction(cluster, mirrors, hashPolicy);
  }

  method BuildHttpHeaderMatchers(metadata: seq<HeaderMatcher>) returns (headers: seq<HeaderMatcher>)
    ensures headers == metadata
  {
    headers := [];
    for i := 0 to |metadata|
      invariant headers == metadata[..i]
    {
      headers := headers + [HeaderMatcher(metadata[i].name, metadata[i].spec)];
    }
  }

  method MetaProtocolRoute2HttpRoute(config: RouteConfiguration) returns (http: HttpRouteConfiguration)
    ensures http == HttpConfigOf(config)
  {
    var routes: seq<HttpRoute> := [];
    for i := 0 to |config.routes|
      invariant |routes| == i && forall j :: 0 <= j < i ==> routes[j] == HttpRouteOf(config.routes[j])
    {
      var headers := BuildHttpHeaderMatchers(config.routes[i].metadata);
      var action := BuildHttpRouteAction(config.routes[i].action);
      var requestHeaders := HttpHeaders(config.routes[i].requestMutation);
      var responseHeaders := HttpHeaders(config.routes[i].responseMutation);
      routes := routes + [HttpRoute(config.routes[i].name, "/", headers, action, requestHeaders, responseHeaders)];
    }
    assert routes == HttpConfigOf(config).virtualHosts[0].routes;
    http := HttpRouteConfiguration(config.name, [VirtualHost("dummy", ["*"], routes)]);
  }
}

/**
  First-match routing survives both translations: what the final HTTP route configuration does with
  a request, compared with what the MetaRouter rules say.
 */
module RouteMeaning {
  import opened Mesh
  import opened Text
  import opened MetaRouting
  import opened RouteValidation
  import opened RouteTranslation

  // --- What the HTTP configuration does ---

  predicate HeaderHolds(h: HeaderMatcher, req: Request, engine: Engine) {
    && h.name in req
    && match h.spec
       case PresentMatch => true
       case ExactMatch(s) => req[h.name] == s
       case PrefixMatch(s) => HasPrefix(req[h.name], s)
       case SafeRegexMatch(re) => engine(re, req[h.name])
  }

  predicate HeadersHold(headers: seq<HeaderMatcher>, req: Request, engine: Engine) {
    forall i :: 0 <= i < |headers| ==> HeaderHolds(headers[i], req, engine)
  }

  predicate HttpMatches(route: HttpRoute, path: string, req: Request, engine: Engine) {
    HasPrefix(path, route.pathPrefix) && HeadersHold(route.headers, req, engine)
  }

  /** The first route of the first virtual host that serves every domain. */
  function HttpSelects(config: HttpRouteConfiguration, path: string, req: Request, engine: Engine): Option<nat> {
    var host := First(config.virtualHosts, (v: VirtualHost) => "*" in v.domains);
    if host.None? then None
    else First(config.virtualHosts[host.value].routes, (r: HttpRoute) => HttpMatches(r, path, req, engine))
  }

  function SumTo(clusters: seq<ClusterWeight>, cluster: string): nat {
    if clusters == [] then 0
    else SumTo(clusters[..|clusters| - 1], cluster) + (if clusters[|clusters| - 1].name == cluster then clusters[|clusters| - 1].weight else 0)
  }

  /** The share of a route's traffic that Envoy sends to a cluster. */
  function HttpShare(spec: ClusterSpecifier, cluster: string): real
    requires spec.WeightedClusters? ==> spec.totalWeight > 0
  {
    match spec
    case Cluster(name) => if name == cluster then 1.0 else 0.0
    case WeightedClusters(clusters, total) => SumTo(clusters, cluster) as real / total as real
  }

  // --- Matches ---

  predicate AllPatterned(attributes: Option<Attributes>) {
    attributes.Some? ==> forall name :: name in attributes.value ==> attributes.value[name] != Some(NoPattern)
  }

  /** The rule without its attributes that have no pattern. */
  function Patterned(attributes: Attributes): Attributes {
    map name | name in attributes && attributes[name] != Some(NoPattern) :: attributes[name]
  }

  /** The headers, in whatever order, hold exactly when the attributes that have a pattern do. */
  lemma HeadersMeanPatterned(attributes: Attributes, headers: seq<HeaderMatcher>, req: Request, engine: Engine)
    requires HeadersFor(Some(attributes), headers)
    ensures HeadersHold(headers, req, engine) <==> RuleMatches(Some(Patterned(attributes)), req, engine)
  {
    forall i | 0 <= i < |headers|
      ensures headers[i].name in Patterned(attributes)
      ensures HeaderHolds(headers[i], req, engine) <==> AttributeHolds(attributes[headers[i].name], headers[i].name, req, engine)
    {
    }
    forall name | name in Patterned(attributes)
      ensures Names(headers, name)
    {
    }
  }

  lemma HeadersMeanRule(attributes: Option<Attributes>, headers: seq<HeaderMatcher>, req: Request, engine: Engine)
    requires HeadersFor(attributes, headers) && AllPatterned(attributes)
    ensures HeadersHold(headers, req, engine) <==> RuleMatches(attributes, req, engine)
  {
    if attributes.Some? {
      HeadersMeanPatterned(attributes.value, headers, req, engine);
      assert Patterned(attributes.value) == attributes.value;
    }
  }

  /** An attribute that no request can satisfy: a regular expression, other than the star that stands for
      every value, with which the engine matches no string. */
  ghost predicate Barren(attribute: Option<StringMatch>, engine: Engine) {
    && attribute.Some? && attribute.value.Regex? && attribute.value.re != "*"
    && forall s :: !engine(attribute.value.re, s)
  }

  ghost predicate NoneBarren(attributes: Attributes, engine: Engine) {
    forall name :: name in attributes ==> !Barren(attributes[name], engine)
  }

  /** A value that satisfies the attribute. */
  ghost function Answer(attribute: Option<StringMatch>, engine: Engine): (s: string)
    requires !Barren(attribute, engine)
    ensures forall name :: AttributeHolds(attribute, name, map[name := s], engine)
  {
    match attribute
    case Some(Exact(value)) => value
    case Some(Prefix(value)) => value
    case Some(Regex(re)) => if re == "*" then "" else var s :| engine(re, s); s
    case _ => ""
  }

  /** Attributes are conditions on different names, so one request satisfies them all unless one of them
      is barren. */
  lemma SatisfiableIff(attributes: Attributes, engine: Engine)
    ensures (exists req :: RuleMatches(Some(attributes), req, engine)) <==> NoneBarren(attributes, engine)
  {
    if NoneBarren(attributes, engine) {
      var req := map name | name in attributes :: Answer(attributes[name], engine);
      forall name | name in attributes
        ensures AttributeHolds(attributes[name], name, req, engine)
      {
        assert AttributeHolds(attributes[name], name, map[name := req[name]], engine);
      }
      assert RuleMatches(Some(attributes), req, engine);
    } else {
      var name :| name in attributes && Barren(attributes[name], engine);
      forall req
        ensures !RuleMatches(Some(attributes), req, engine)
      {
        assert !AttributeHolds(attributes[name], name, req, engine);
      }
    }
  }

  /** An attribute without a pattern is dropped, where the resource definition says its presence is
      checked. The translation is faithful for every request exactly when there is no such attribute,
      or when one of the others is barren. */
  lemma MatchIsFaithfulIff(attributes: Attributes, headers: seq<HeaderMatcher>, engine: Engine)
    requires HeadersFor(Some(attributes), headers)
    ensures (forall req :: HeadersHold(headers, req, engine) <==> RuleMatches(Some(attributes), req, engine)) <==>
            (AllPatterned(Some(attributes)) || exists name :: name in attributes && Barren(attributes[name], engine))
  {
    forall req
      ensures HeadersHold(headers, req, engine) <==> RuleMatches(Some(Patterned(attributes)), req, engine)
      ensures RuleMatches(Some(attributes), req, engine) ==> RuleMatches(Some(Patterned(attributes)), req, engine)
    {
      HeadersMeanPatterned(attributes, headers, req, engine);
    }
    SatisfiableIff(Patterned(attributes), engine);
    assert NoneBarren(Patterned(attributes), engine) <==> NoneBarren(attributes, engine);
    if AllPatterned(Some(attributes)) {
      assert Patterned(attributes) == attributes;
    } else if req :| RuleMatches(Some(Patterned(attributes)), req, engine) {
      DroppedAttribute(attributes, req, engine);
    }
  }

  /** Leave the dropped attribute out of a request that satisfies the others. */
  lemma DroppedAttribute(attributes: Attributes, req: Request, engine: Engine)
    requires !AllPatterned(Some(attributes)) && RuleMatches(Some(Patterned(attributes)), req, engine)
    ensures exists r :: RuleMatches(Some(Patterned(attributes)), r, engine) && !RuleMatches(Some(attributes), r, engine)
  {
    var name :| name in attributes && attributes[name] == Some(NoPattern);
    var without := req - {name};
    assert RuleMatches(Some(Patterned(attributes)), without, engine);
    assert !AttributeHolds(attributes[name], name, without, engine);
  }

  /** A rule with one attribute, which has no pattern. */
  function PresenceRule(name: string, d: Destination): MetaRoute {
    MetaRoute("r", Some(map[name := Some(NoPattern)]), [Some(RouteDestination(Some(d), 0))], None, None, [], [])
  }

  /** Such a rule is accepted, every configuration made from it routes the request without metadata, and
      the rule does not select that request. */
  lemma PresenceRuleMisroutes(name: string, d: Destination, c: Checks, config: RouteConfiguration, port: nat, dr: Option<DestinationRule>,
                              clusterName: ClusterName, engine: Engine)
    requires name != "" && DestinationAccepted(Some(d), c)
    requires TranslatesAll([Some(PresenceRule(name, d))], config.routes, port, dr, clusterName)
    ensures RouteAccepted(PresenceRule(name, d), c)
    ensures HttpSelects(HttpConfigOf(config), "/", map[], engine) == Some(0)
    ensures First([Some(PresenceRule(name, d))], (r: Option<MetaRoute>) => RulePicks(r, map[], engine)) == None
  {
    var rule, req: Request := PresenceRule(name, d), map[];
    assert Translates([Some(rule)][0].value, config.routes[0], port, dr, clusterName);
    HeadersMeanPatterned(rule.attributes.value, config.routes[0].metadata, req, engine);
    assert Patterned(rule.attributes.value) == map[];
    var http := HttpConfigOf(config);
    assert "*" in http.virtualHosts[0].domains;
    assert HttpMatches(http.virtualHosts[0].routes[0], "/", req, engine);
    assert !AttributeHolds(rule.attributes.value[name], name, req, engine);
    assert !RulePicks(Some(rule), req, engine);
  }

  // --- Actions ---

  lemma {:induction false} ClustersCarryWeights(ds: seq<Option<RouteDestination>>, port: nat, clusterName: ClusterName, cluster: string)
    requires forall i :: 0 <= i < |ds| ==> ds[i].Some? && ds[i].value.destination.Some?
    ensures SumTo(ClustersOf(ds, port, clusterName), cluster) == WeightTo(ds, port, clusterName, cluster)
  {
    if ds != [] {
      var clusters := ClustersOf(ds, port, clusterName);
      assert clusters[..|ds| - 1] == ClustersOf(ds[..|ds| - 1], port, clusterName);
      ClustersCarryWeights(ds[..|ds| - 1], port, clusterName, cluster);
    }
  }

  /** With several destinations, the weights of the clusters are those of the destinations. */
  lemma WeightsKept(ds: seq<Option<RouteDestination>>, c: Checks, port: nat, clusterName: ClusterName, cluster: string)
    requires 1 < |ds| <= MAX_DESTINATIONS && DestinationsAccepted(ds, c)
    requires forall i :: 0 <= i < |ds| ==> ds[i].Some? && ds[i].value.destination.Some?
    ensures WrappedSum(ds) == TrueSum(ds) == 100
    ensures HttpShare(WeightedClusters(ClustersOf(ds, port, clusterName), 100), cluster) == WeightTo(ds, port, clusterName, cluster) as real / 100.0
  {
    AcceptedWeightsAddUp(ds, c);
    ClustersCarryWeights(ds, port, clusterName, cluster);
  }

  /** Each destination's cluster is named by its subset, its host, and its own port if that is set and not
      zero, else the service's. */
  predicate ClustersNamed(ds: seq<Option<RouteDestination>>, spec: ClusterSpecifier, port: nat, clusterName: ClusterName)
    requires forall i :: 0 <= i < |ds| ==> ds[i].Some? && ds[i].value.destination.Some?
  {
    match spec
    case Cluster(name) =>
      && |ds| == 1
      && var d := ds[0].value.destination.value;
      && name == clusterName(d.subset, d.host, if d.port.Some? && d.port.value > 0 then d.port.value else port)
    case WeightedClusters(clusters, _) =>
      && |ds| == |clusters|
      && forall i :: 0 <= i < |ds| ==>
           var d := ds[i].value.destination.value;
           clusters[i].name == clusterName(d.subset, d.host, if d.port.Some? && d.port.value > 0 then d.port.value else port)
  }

  /** The clusters of any rule without nulls, accepted or not: one for each destination, in order, with its
      weight, and the sum of the weights as 32 bits hold it. */
  lemma ActionClusters(rule: MetaRoute, port: nat, dr: Option<DestinationRule>, clusterName: ClusterName)
    requires NoNull(rule)
    ensures var spec := ActionOf(port, rule, dr, clusterName).cluster;
            && (spec.Cluster? <==> |rule.destinations| == 1)
            && ClustersNamed(rule.destinations, spec, port, clusterName)
            && (spec.WeightedClusters? ==>
                  && spec.totalWeight == TrueSum(rule.destinations) % 0x1_0000_0000
                  && forall i :: 0 <= i < |rule.destinations| ==> spec.clusters[i].weight == rule.destinations[i].value.weight)
  {
    WrappedSumIsModulo(rule.destinations);
  }

  /** The action of an accepted rule: every cluster gets its share, one weighted cluster is emitted for
      each destination, in order, and their weights add up to the emitted total, which is 100. */
  lemma ActionKeepsShares(rule: MetaRoute, c: Checks, port: nat, dr: Option<DestinationRule>, clusterName: ClusterName, cluster: string)
    requires RouteAccepted(rule, c) && |rule.destinations| <= MAX_DESTINATIONS
    ensures NoNull(rule)
    ensures var spec := ActionOf(port, rule, dr, clusterName).cluster;
            && (spec.WeightedClusters? ==>
                  && spec.totalWeight == TrueSum(rule.destinations) == 100
                  && |spec.clusters| == |rule.destinations|
                  && forall i :: 0 <= i < |spec.clusters| ==> spec.clusters[i].weight == rule.destinations[i].value.weight)
            && ClustersNamed(rule.destinations, spec, port, clusterName)
            && HttpShare(spec, cluster) == Share(rule, port, clusterName, cluster)
  {
    if |rule.destinations| > 1 {
      WeightsKept(rule.destinations, c, port, clusterName, cluster);
    }
  }

  /** The one mirror of an accepted rule: its cluster is named like a destination's, and the fraction is
      the percentage, or all where none is given, rounded down to millionths. */
  predicate MirrorNamed(rule: MetaRoute, mirrors: seq<MirrorPolicy>, port: nat, clusterName: ClusterName) {
    match rule.mirror
    case None => mirrors == []
    case Some(d) =>
      var percent := if rule.mirrorPercentage.Some? then rule.mirrorPercentage.value else 100.0;
      && |mirrors| == 1
      && mirrors[0].cluster == clusterName(d.subset, d.host, if d.port.Some? && d.port.value > 0 then d.port.value else port)
      && mirrors[0].numerator as real <= percent * 10000.0 < (mirrors[0].numerator + 1) as real
      && 0 <= mirrors[0].numerator <= 1_000_000
  }

  lemma MirrorIsExact(rule: MetaRoute, c: Checks, port: nat, clusterName: ClusterName)
    requires RouteAccepted(rule, c)
    ensures MirrorNamed(rule, MirrorsOf(rule, port, clusterName), port, clusterName)
  {
    if rule.mirror.Some? {
      assert 0.0 < MirrorPercent(rule) <= 100.0;
      assert 0.0 <= MirrorPercent(rule) * 10000.0 <= 1000000.0;
    }
  }

  /** The header on which traffic for a subset is hashed: that of the rule's own policy for no subset, else
      that of the first subset of the name. */
  predicate HashesOn(dr: Option<DestinationRule>, subset: string, header: string) {
    && dr.Some? && header != ""
    && if subset == "" then dr.value.trafficPolicy == Some(TrafficPolicy(header))
       else exists i :: && 0 <= i < |dr.value.subsets| && dr.value.subsets[i] == Subset(subset, Some(TrafficPolicy(header)))
                        && forall j :: 0 <= j < i ==> dr.value.subsets[j].name != subset
  }

  lemma HashPolicyIff(dr: Option<DestinationRule>, subset: string, header: string)
    ensures HashesOn(dr, subset, header) <==> header != "" && GetHashPolicy(dr, subset) == header
  {
    if dr.Some? && subset != "" {
      var first := First(dr.value.subsets, (s: Subset) => s.name == subset);
      if first.Some? {
        var s := dr.value.subsets[first.value];
        assert s.trafficPolicy.Some? ==> s == Subset(subset, Some(TrafficPolicy(HeaderName(s.trafficPolicy))));
      }
    }
  }

  /** The headers, in order, are those of the destinations that have one, `at` saying which. */
  ghost predicate HashesAt(headers: seq<string>, ds: seq<Option<RouteDestination>>, dr: Option<DestinationRule>, at: seq<nat>)
    requires forall i :: 0 <= i < |ds| ==> ds[i].Some? && ds[i].value.destination.Some?
  {
    && |at| == |headers| && (forall i, j :: 0 <= i < j < |at| ==> at[i] < at[j])
    && (forall i :: 0 <= i < |at| ==> at[i] < |ds| && HashesOn(dr, ds[at[i]].value.destination.value.subset, headers[i]))
    && (forall k :: 0 <= k < |ds| && k !in at ==> GetsNoHash(dr, ds[k].value.destination.value.subset))
  }

  ghost predicate GetsNoHash(dr: Option<DestinationRule>, subset: string) {
    forall header :: !HashesOn(dr, subset, header)
  }

  lemma NoHashIff(dr: Option<DestinationRule>, subset: string)
    ensures GetsNoHash(dr, subset) <==> GetHashPolicy(dr, subset) == ""
  {
    HashPolicyIff(dr, subset, GetHashPolicy(dr, subset));
    forall header
      ensures HashesOn(dr, subset, header) <==> header != "" && GetHashPolicy(dr, subset) == header
    {
      HashPolicyIff(dr, subset, header);
    }
  }

  lemma {:induction false} HashPoliciesExact(ds: seq<Option<RouteDestination>>, dr: Option<DestinationRule>) returns (at: seq<nat>)
    requires forall i :: 0 <= i < |ds| ==> ds[i].Some? && ds[i].value.destination.Some?
    ensures HashesAt(HashPolicies(ds, dr), ds, dr, at)
  {
    at := [];
    if ds != [] {
      var init, last := ds[..|ds| - 1], ds[|ds| - 1];
      var policy := GetHashPolicy(dr, last.value.destination.value.subset);
      HashPolicyIff(dr, last.value.destination.value.subset, policy);
      NoHashIff(dr, last.value.destination.value.subset);
      at := HashPoliciesExact(init, dr);
      if policy != "" {
        at := at + [|ds| - 1];
      }
    }
  }

  // --- Whole configurations ---

  /** The final route does with a request what the rule says: same name, same share of the traffic to
      every cluster, same mirror, same hash headers, same mutations. */
  ghost predicate SameEffect(rule: MetaRoute, route: HttpRoute, port: nat, dr: Option<DestinationRule>, clusterName: ClusterName)
    requires NoNull(rule)
  {
    && route.name == rule.name
    && ClustersNamed(rule.destinations, route.action.cluster, port, clusterName)
    && (route.action.cluster.WeightedClusters? ==> route.action.cluster.totalWeight > 0)
    && (forall cluster :: HttpShare(route.action.cluster, cluster) == Share(rule, port, clusterName, cluster))
    && MirrorNamed(rule, route.action.mirrors, port, clusterName)
    && (exists at :: HashesAt(HeaderNames(route.action.hashPolicy), rule.destinations, dr, at))
    && Adds(route.requestHeadersToAdd, rule.requestMutation) && Adds(route.responseHeadersToAdd, rule.responseMutation)
  }

  function HeaderNames(policies: seq<HttpHashPolicy>): seq<string> {
    seq(|policies|, i requires 0 <= i < |policies| => policies[i].headerName)
  }

  predicate Adds(headers: seq<HeaderValueOption>, mutation: seq<KeyValue>) {
    |headers| == |mutation| && forall i :: 0 <= i < |headers| ==> headers[i].key == mutation[i].key && headers[i].value == mutation[i].value
  }

  ghost predicate Translatable(rules: seq<Option<MetaRoute>>, c: Checks) {
    && RoutesAccepted(rules, c)
    && forall i :: 0 <= i < |rules| ==> AllPatterned(rules[i].value.attributes) && |rules[i].value.destinations| <= MAX_DESTINATIONS
  }

  /** What the webhook accepts goes through both translations: neither meets a null. */
  method TranslateAccepted(host: string, port: nat, rules: seq<Option<MetaRoute>>, dr: Option<DestinationRule>, clusterName: ClusterName, ghost c: Checks)
    returns (http: HttpRouteConfiguration, ghost config: RouteConfiguration)
    requires RoutesAccepted(rules, c)
    ensures RulesPresent(rules) && TranslatesAll(rules, config.routes, port, dr, clusterName)
    ensures http == HttpConfigOf(config) && http.name == host + "_" + Itoa(port)
  {
    var translated := ConstructRoute(host, port, rules, dr, clusterName);
    config := translated;
    http := MetaProtocolRoute2HttpRoute(translated);
  }

  predicate RulePicks(rule: Option<MetaRoute>, req: Request, engine: Engine) {
    rule.Some? && RuleMatches(rule.value.attributes, req, engine)
  }

  /** For accepted rules whose attributes all have a pattern, and any order of header matchers: both
      translations are defined, every request for a path selects the same route index in the rules and in
      the final configuration, and the route there has the rule's effect. */
  lemma {:induction false} RoutingSurvives(rules: seq<Option<MetaRoute>>, c: Checks, config: RouteConfiguration, port: nat, dr: Option<DestinationRule>,
                        clusterName: ClusterName, path: string, req: Request, engine: Engine)
    requires Translatable(rules, c)
    requires RulesPresent(rules) && TranslatesAll(rules, config.routes, port, dr, clusterName)
    ensures var http := HttpConfigOf(config);
            && http.name == config.name
            && HttpSelects(http, path, req, engine) ==
               (if HasPrefix(path, "/") then First(rules, (r: Option<MetaRoute>) => RulePicks(r, req, engine)) else None)
            && |http.virtualHosts[0].routes| == |rules|
            && forall i :: 0 <= i < |rules| ==> SameEffect(rules[i].value, http.virtualHosts[0].routes[i], port, dr, clusterName)
  {
    var http := HttpConfigOf(config);
    var routes := http.virtualHosts[0].routes;
    forall i | 0 <= i < |rules|
      ensures HttpMatches(routes[i], path, req, engine) <==> HasPrefix(path, "/") && RulePicks(rules[i], req, engine)
      ensures SameEffect(rules[i].value, routes[i], port, dr, clusterName)
    {
      assert Translates(rules[i].value, config.routes[i], port, dr, clusterName);
      HeadersMeanRule(rules[i].value.attributes, config.routes[i].metadata, req, engine);
      EffectSurvives(rules[i].value, c, config.routes[i], port, dr, clusterName);
    }
    if HasPrefix(path, "/") {
      FirstAgrees(rules, routes, (r: Option<MetaRoute>) => RulePicks(r, req, engine), (r: HttpRoute) => HttpMatches(r, path, req, engine));
    }
    assert "*" in http.virtualHosts[0].domains;
  }

  lemma EffectSurvives(rule: MetaRoute, c: Checks, route: Route, port: nat, dr: Option<DestinationRule>, clusterName: ClusterName)
    requires RouteAccepted(rule, c) && |rule.destinations| <= MAX_DESTINATIONS && NoNull(rule)
    requires Translates(rule, route, port, dr, clusterName)
    ensures SameEffect(rule, HttpRouteOf(route), port, dr, clusterName)
  {
    forall cluster
      ensures route.action.cluster.WeightedClusters? ==> route.action.cluster.totalWeight > 0
      ensures HttpShare(route.action.cluster, cluster) == Share(rule, port, clusterName, cluster)
    {
      ActionKeepsShares(rule, c, port, dr, clusterName, cluster);
    }
    ActionKeepsShares(rule, c, port, dr, clusterName, "");
    MirrorIsExact(rule, c, port, clusterName);
    HashesSurvive(rule.destinations, dr);
  }

  lemma HashesSurvive(ds: seq<Option<RouteDestination>>, dr: Option<DestinationRule>)
    requires forall i :: 0 <= i < |ds| ==> ds[i].Some? && ds[i].value.destination.Some?
    ensures exists at :: HashesAt(HeaderNames(Hashes(HashPolicies(ds, dr))), ds, dr, at)
  {
    var at := HashPoliciesExact(ds, dr);
    assert HeaderNames(Hashes(HashPolicies(ds, dr))) == HashPolicies(ds, dr);
  }

  /** A service without a MetaRouter: every request goes to the service's own cluster, hashed on the header
      of the rule's own policy if it has one, and is otherwise left alone. */
  lemma DefaultRoutesEverything(host: string, port: nat, dr: Option<DestinationRule>, clusterName: ClusterName,
                                path: string, req: Request, engine: Engine, header: string)
    ensures var http := HttpConfigOf(DefaultRoute(host, port, dr, clusterName));
            && http.name == host + "_" + Itoa(port)
            && HttpSelects(http, path, req, engine) == (if HasPrefix(path, "/") then Some(0) else None)
            && var route := http.virtualHosts[0].routes[0];
            && route.name == "default"
            && route.action.cluster == Cluster(clusterName("", host, port)) && route.action.mirrors == []
            && |route.action.hashPolicy| <= 1 && (HeaderHash(header) in route.action.hashPolicy <==> HashesOn(dr, "", header))
            && route.requestHeadersToAdd == [] && route.responseHeadersToAdd == []
  {
    var http := HttpConfigOf(DefaultRoute(host, port, dr, clusterName));
    assert "*" in http.virtualHosts[0].domains;
    assert HttpMatches(http.virtualHosts[0].routes[0], path, req, engine) <==> HasPrefix(path, "/");
    var policy := GetHashPolicy(dr, "");
    assert http.virtualHosts[0].routes[0].action.hashPolicy == if policy == "" then [] else [HeaderHash(policy)];
    HashPolicyIff(dr, "", header);
  }
}

/** MetaRouter routing rules and what they mean for a request. */
module MetaRouting {
  import opened Mesh
  import opened Text

  const UINT32_RANGE: nat := 0x1_0000_0000

  type uint32 = n: nat | n < UINT32_RANGE

  /** `NoPattern` is a match object in which no pattern is set. */
  datatype StringMatch = Exact(s: string) | Prefix(s: string) | Regex(re: string) | NoPattern

  datatype Destination = Destination(host: string, subset: string, port: Option<nat>)

  datatype RouteDestination = RouteDestination(destination: Option<Destination>, weight: uint32)

  datatype KeyValue = KeyValue(key: string, value: string)

  type Attributes = map<string, Option<StringMatch>>

  datatype MetaRoute = MetaRoute(
    name: string,
    attributes: Option<Attributes>,
    destinations: seq<Option<RouteDestination>>,
    mirror: Option<Destination>,
    mirrorPercentage: Option<real>,
    requestMutation: seq<KeyValue>,
    responseMutation: seq<KeyValue>)

  /** The metadata of a request. */
  type Request = map<string, string>

  /** A regular expression engine. */
  type Engine = (string, string) -> bool

  // --- Which rule a request selects ---

  predicate AttributeHolds(attribute: Option<StringMatch>, name: string, req: Request, engine: Engine) {
    && name in req
    && match attribute
       case None => true
       case Some(Exact(s)) => req[name] == s
       case Some(Prefix(s)) => HasPrefix(req[name], s)
       case Some(Regex(re)) => re == "*" || engine(re, req[name])
       case Some(NoPattern) => true
  }

  /** All attributes hold; one without a pattern must be present. */
  predicate RuleMatches(attributes: Option<Attributes>, req: Request, engine: Engine) {
    attributes.Some? ==>
      forall name :: name in attributes.value ==> AttributeHolds(attributes.value[name], name, req, engine)
  }

  /** The index of the first element that satisfies a predicate. */
  function First<T>(xs: seq<T>, p: T -> bool): (r: Option<nat>)
    ensures r.Some? ==> r.value < |xs| && p(xs[r.value]) && forall j :: 0 <= j < r.value ==> !p(xs[j])
    ensures r.None? ==> forall j :: 0 <= j < |xs| ==> !p(xs[j])
  {
    if xs == [] then None
    else if p(xs[0]) then Some(0)
    else
      var rest := First(xs[1..], p);
      if rest.None? then None else Some(rest.value + 1)
  }

  /** Two lists whose elements agree pairwise have the same first element. */
  lemma {:induction false} FirstAgrees<T, U>(xs: seq<T>, ys: seq<U>, p: T -> bool, q: U -> bool)
    requires |xs| == |ys| && forall i :: 0 <= i < |xs| ==> p(xs[i]) == q(ys[i])
    ensures First(xs, p) == First(ys, q)
  {
    if xs != [] {
      FirstAgrees(xs[1..], ys[1..], p, q);
    }
  }

  // --- Where it is sent ---

  /** How the clusters of destinations are named: subset, host, port. */
  type ClusterName = (string, string, nat) -> string

  /** No null where the translation looks. */
  predicate NoNull(route: MetaRoute) {
    forall i :: 0 <= i < |route.destinations| ==> route.destinations[i].Some? && route.destinations[i].value.destination.Some?
  }

  /** Traffic for the destination belongs in that cluster: the one of its own port, or of the service's
      port if it gives none or zero. */
  predicate Reaches(d: Destination, port: nat, clusterName: ClusterName, cluster: string) {
    match d.port
    case None => cluster == clusterName(d.subset, d.host, port)
    case Some(own) => cluster == clusterName(d.subset, d.host, if own == 0 then port else own)
  }

  function TrueSum(ds: seq<Option<RouteDestination>>): nat {
    if ds == [] then 0
    else TrueSum(ds[..|ds| - 1]) + (if ds[|ds| - 1].Some? then ds[|ds| - 1].value.weight else 0)
  }

  /** The weight, of the total of a rule's weights, that goes to one cluster. */
  function WeightTo(ds: seq<Option<RouteDestination>>, port: nat, clusterName: ClusterName, cluster: string): nat
    requires forall i :: 0 <= i < |ds| ==> ds[i].Some? && ds[i].value.destination.Some?
  {
    if ds == [] then 0
    else
      var last := ds[|ds| - 1].value;
      WeightTo(ds[..|ds| - 1], port, clusterName, cluster)
      + (if Reaches(last.destination.value, port, clusterName, cluster) then last.weight else 0)
  }

  /** The share of a rule's traffic that goes to one cluster: all of it for a single destination,
      weight over 100 otherwise. */
  function Share(route: MetaRoute, port: nat, clusterName: ClusterName, cluster: string): real
    requires NoNull(route)
  {
    if |route.destinations| == 1 then
      if Reaches(route.destinations[0].value.destination.value, port, clusterName, cluster) then 1.0 else 0.0
    else WeightTo(route.destinations, port, clusterName, cluster) as real / 100.0
  }

  // --- Destination rules ---

  /** The header whose hash picks the endpoint; empty unless a consistent-hash load balancer is set. */
  datatype TrafficPolicy = TrafficPolicy(httpHeaderName: string)

  datatype Subset = Subset(name: string, trafficPolicy: Option<TrafficPolicy>)

  datatype DestinationRule = DestinationRule(host: string, trafficPolicy: Option<TrafficPolicy>, subsets: seq<Subset>)

  function HeaderName(tp: Option<TrafficPolicy>): string {
    if tp.Some? then tp.value.httpHeaderName else ""
  }

  /** The policy of the rule itself, or of the first subset of that name. */
  function GetHashPolicy(dr: Option<DestinationRule>, subset: string): string {
    if dr.None? then ""
    else if subset == "" then HeaderName(dr.value.trafficPolicy)
    else
      var i := First(dr.value.subsets, (s: Subset) => s.name == subset);
      if i.None? then "" else HeaderName(dr.value.subsets[i.value].trafficPolicy)
  }
}

/**
  What the webhook accepts as a MetaRouter route, and what its weight check guarantees: the weights
  are summed in 32 bits.
 */
module RouteValidation {
  import opened Mesh
  import opened MetaRouting

  /** The syntactic checks the validator calls. */
  datatype Checks = Checks(fqdn: string -> bool, dnsLabel: string -> bool, compiles: string -> bool)

  datatype RouteError =
    | NullAttribute(name: string)
    | EmptyAttributeName
    | BadRegex(name: string)
    | EmptyMutation
    | MirrorNotSet
    | MirrorPercentageOutOfRange
    | BadHost(host: string)
    | BadSubset(subset: string)
    | BadPort(port: nat)
    | NoDestination
    | NullDestination
    | BadWeight(weight: nat)
    | BadTotalWeight(total: nat)
    | NullRoute

  // --- Accepted, declaratively ---

  predicate AttributeAccepted(name: string, attribute: Option<StringMatch>, c: Checks) {
    && attribute.Some? && name != ""
    && (attribute.value.Regex? ==> attribute.value.re != "" && c.compiles(attribute.value.re))
  }

  predicate MatchAccepted(attributes: Option<Attributes>, c: Checks) {
    attributes.Some? ==> forall name :: name in attributes.value ==> AttributeAccepted(name, attributes.value[name], c)
  }

  predicate MutationAccepted(mutation: seq<KeyValue>) {
    forall i :: 0 <= i < |mutation| ==> mutation[i].key != "" && mutation[i].value != ""
  }

  predicate DestinationAccepted(d: Option<Destination>, c: Checks) {
    d.Some? ==>
      && c.fqdn(d.value.host)
      && (d.value.subset != "" ==> c.dnsLabel(d.value.subset))
      && (d.value.port.Some? ==> 1 <= d.value.port.value <= 65535)
  }

  predicate EachAccepted(ds: seq<Option<RouteDestination>>, c: Checks) {
    forall i :: 0 <= i < |ds| ==>
      && ds[i].Some? && ds[i].value.destination.Some?
      && DestinationAccepted(ds[i].value.destination, c) && ds[i].value.weight <= 100
  }

  /** The sum of the weights as a uint32 holds it. */
  function WrappedSum(ds: seq<Option<RouteDestination>>): uint32 {
    if ds == [] then 0
    else if ds[|ds| - 1].None? then WrappedSum(ds[..|ds| - 1])
    else (WrappedSum(ds[..|ds| - 1]) + ds[|ds| - 1].value.weight) % UINT32_RANGE
  }

  predicate DestinationsAccepted(ds: seq<Option<RouteDestination>>, c: Checks) {
    |ds| > 0 && EachAccepted(ds, c) && (|ds| > 1 ==> WrappedSum(ds) == 100)
  }

  predicate MirrorAccepted(route: MetaRoute, c: Checks) {
    && DestinationAccepted(route.mirror, c)
    && (route.mirrorPercentage.Some? ==> route.mirror.Some? && 0.0 < route.mirrorPercentage.value <= 100.0)
  }

  predicate RouteAccepted(route: MetaRoute, c: Checks) {
    && MatchAccepted(route.attributes, c)
    && MutationAccepted(route.requestMutation) && MutationAccepted(route.responseMutation)
    && MirrorAccepted(route, c) && DestinationsAccepted(route.destinations, c)
  }

  predicate RoutesAccepted(routes: seq<Option<MetaRoute>>, c: Checks) {
    forall i :: 0 <= i < |routes| ==> routes[i].Some? && RouteAccepted(routes[i].value, c)
  }

  // --- The validator ---

  method ValidateMetaRouteMatch(attributes: Option<Attributes>, c: Checks) returns (errs: seq<RouteError>)
    ensures errs == [] <==> MatchAccepted(attributes, c)
  {
    errs := [];
    if attributes.Some? {
      var left := attributes.value.Keys;
      while left != {}
        invariant left <= attributes.value.Keys
        invariant errs == [] <==> forall name :: name in attributes.value.Keys - left ==> AttributeAccepted(name, attributes.value[name], c)
        decreases left
      {
        ghost var done, before := attributes.value.Keys - left, errs;
        var name :| name in left;
        left := left - {name};
        var attribute := attributes.value[name];
        if attribute.None? {
          errs := errs + [NullAttribute(name)];
        }
        if name == "" {
          errs := errs + [EmptyAttributeName];
        }
        if attribute.Some? && attribute.value.Regex? && (attribute.value.re == "" || !c.compiles(attribute.value.re)) {
          errs := errs + [BadRegex(name)];
        }
        assert attributes.value.Keys - left == done + {name};
        assert errs == [] <==> before == [] && AttributeAccepted(name, attribute, c);
      }
    }
  }

  method ValidateMutation(mutation: seq<KeyValue>) returns (errs: seq<RouteError>)
    ensures errs == [] <==> MutationAccepted(mutation)
  {
    errs := [];
    for i := 0 to |mutation|
      invariant errs == [] <==> MutationAccepted(mutation[..i])
    {
      if mutation[i].key == "" {
        errs := errs + [EmptyMutation];
      }
      if mutation[i].value == "" {
        errs := errs + [EmptyMutation];
      }
      assert mutation[..i + 1] == mutation[..i] + [mutation[i]];
    }
    assert mutation[..|mutation|] == mutation;
  }

  method ValidateDestination(d: Option<Destination>, c: Checks) returns (errs: seq<RouteError>)
    ensures errs == [] <==> DestinationAccepted(d, c)
  {
    errs := [];
    if d.None? {
      return;
    }
    if !c.fqdn(d.value.host) {
      errs := errs + [BadHost(d.value.host)];
    }
    if d.value.subset != "" && !c.dnsLabel(d.value.subset) {
      errs := errs + [BadSubset(d.value.subset)];
    }
    if d.value.port.Some? && !(1 <= d.value.port.value <= 65535) {
      errs := errs + [BadPort(d.value.port.value)];
    }
  }

  method ValidateMetaRouteDestinations(ds: seq<Option<RouteDestination>>, c: Checks) returns (errs: seq<RouteError>)
    ensures errs == [] <==> DestinationsAccepted(ds, c)
  {
    errs := [];
    if |ds| == 0 {
      return [NoDestination];
    }
    var totalWeight: uint32 := 0;
    for i := 0 to |ds|
      invariant errs == [] <==> EachAccepted(ds[..i], c)
      invariant totalWeight == WrappedSum(ds[..i])
    {
      assert ds[..i + 1] == ds[..i] + [ds[i]] && ds[..i + 1][..i] == ds[..i];
      if ds[i].None? {
        errs := errs + [NullDestination];
      } else {
        var destination := ds[i].value;
        if destination.destination.None? {
          errs := errs + [NullDestination];
        }
        var more := ValidateDestination(destination.destination, c);
        errs := errs + more;
        if destination.weight > 100 {
          errs := errs + [BadWeight(destination.weight)];
        }
        totalWeight := (totalWeight + destination.weight) % UINT32_RANGE;
      }
    }
    assert ds[..|ds|] == ds;
    if |ds| > 1 && totalWeight != 100 {
      errs := errs + [BadTotalWeight(totalWeight)];
    }
  }

  method ValidateMetaRoute(route: MetaRoute, c: Checks) returns (errs: seq<RouteError>)
    ensures errs == [] <==> RouteAccepted(route, c)
  {
    errs := ValidateMetaRouteMatch(route.attributes, c);
    var more := ValidateMutation(route.requestMutation);
    errs := errs + more;
    more := ValidateMutation(route.responseMutation);
    errs := errs + more;
    if route.mirrorPercentage.Some? && route.mirror.None? {
      errs := errs + [MirrorNotSet];
    }
    if route.mirrorPercentage.Some? {
      if route.mirrorPercentage.value > 100.0 {
        errs := errs + [MirrorPercentageOutOfRange];
      }
      if route.mirrorPercentage.value <= 0.0 {
        errs := errs + [MirrorPercentageOutOfRange];
      }
    }
    more := ValidateDestination(route.mirror, c);
    errs := errs + more;
    more := ValidateMetaRouteDestinations(route.destinations, c);
    errs := errs + more;
  }

  method ValidateRoutes(routes: seq<Option<MetaRoute>>, c: Checks) returns (errs: seq<RouteError>)
    ensures errs == [] <==> RoutesAccepted(routes, c)
  {
    errs := [];
    for i := 0 to |routes|
      invariant errs == [] <==> RoutesAccepted(routes[..i], c)
    {
      assert routes[..i + 1] == routes[..i] + [routes[i]];
      if routes[i].None? {
        errs := errs + [NullRoute];
      } else {
        var more := ValidateMetaRoute(routes[i].value, c);
        errs := errs + more;
      }
    }
    assert routes[..|routes|] == routes;
  }

  // --- What the weight check guarantees ---

  lemma {:induction false} WrappedSumIsModulo(ds: seq<Option<RouteDestination>>)
    ensures WrappedSum(ds) == TrueSum(ds) % UINT32_RANGE
  {
    if ds != [] {
      WrappedSumIsModulo(ds[..|ds| - 1]);
    }
  }

  lemma {:induction false} TrueSumBound(ds: seq<Option<RouteDestination>>, c: Checks)
    requires EachAccepted(ds, c)
    ensures TrueSum(ds) <= 100 * |ds|
  {
    if ds != [] {
      TrueSumBound(ds[..|ds| - 1], c);
    }
  }

  function Copies(d: Destination, weight: uint32, n: nat): seq<Option<RouteDestination>> {
    if n == 0 then [] else Copies(d, weight, n - 1) + [Some(RouteDestination(Some(d), weight))]
  }

  lemma {:induction false} CopiesSum(d: Destination, weight: uint32, n: nat, c: Checks)
    requires DestinationAccepted(Some(d), c) && weight <= 100
    ensures |Copies(d, weight, n)| == n && TrueSum(Copies(d, weight, n)) == weight * n && EachAccepted(Copies(d, weight, n), c)
  {
    if n > 0 {
      var init := Copies(d, weight, n - 1);
      assert Copies(d, weight, n)[..|init|] == init;
      CopiesSum(d, weight, n - 1, c);
      assert weight * n == weight * (n - 1) + weight;
    }
  }

  lemma {:induction false} SumConcat(a: seq<Option<RouteDestination>>, b: seq<Option<RouteDestination>>)
    ensures TrueSum(a + b) == TrueSum(a) + TrueSum(b)
  {
    if b == [] {
      assert a + b == a;
    } else {
      assert (a + b)[..|a + b| - 1] == a + b[..|b| - 1];
      SumConcat(a, b[..|b| - 1]);
    }
  }

  /** A destination with a valid host, a valid subset or none, and a port from 1 to 65535 or none. */
  predicate ValidTarget(d: Destination, c: Checks) {
    && c.fqdn(d.host) && (d.subset == "" || c.dnsLabel(d.subset))
    && (d.port.None? || 0 < d.port.value < 65536)
  }

  /** What is accepted, written out: attributes that are set, named, and whose regular expression compiles;
      mutations without empty keys or values; a percentage in (0, 100] only with a mirror; a valid mirror;
      at least one destination, each valid with a weight of at most 100; and several of them with weights
      that sum to 100 modulo 2^32. */
  lemma AcceptedIff(route: MetaRoute, c: Checks)
    ensures RouteAccepted(route, c) <==>
            && (route.attributes.Some? ==> forall name :: name in route.attributes.value ==>
                  && name != "" && route.attributes.value[name].Some?
                  && var m := route.attributes.value[name].value; m.Regex? ==> m.re != "" && c.compiles(m.re))
            && (forall kv :: kv in route.requestMutation || kv in route.responseMutation ==> kv.key != "" && kv.value != "")
            && (route.mirrorPercentage.Some? ==> route.mirror.Some? && 0.0 < route.mirrorPercentage.value <= 100.0)
            && (route.mirror.Some? ==> ValidTarget(route.mirror.value, c))
            && route.destinations != []
            && (forall d :: d in route.destinations ==>
                  d.Some? && d.value.destination.Some? && ValidTarget(d.value.destination.value, c) && d.value.weight <= 100)
            && (|route.destinations| > 1 ==> TrueSum(route.destinations) % UINT32_RANGE == 100)
  {
    WrappedSumIsModulo(route.destinations);
    assert MutationAccepted(route.requestMutation) <==> forall kv :: kv in route.requestMutation ==> kv.key != "" && kv.value != "";
    assert MutationAccepted(route.responseMutation) <==> forall kv :: kv in route.responseMutation ==> kv.key != "" && kv.value != "";
  }

  /** The largest number of destinations for which the check cannot be fooled by wrap-around. */
  const MAX_DESTINATIONS: nat := 42_949_673

  /** An accepted list of several destinations, up to that many, really adds up to 100. */
  lemma AcceptedWeightsAddUp(ds: seq<Option<RouteDestination>>, c: Checks)
    requires 1 < |ds| <= MAX_DESTINATIONS && DestinationsAccepted(ds, c)
    ensures TrueSum(ds) == 100
  {
    WrappedSumIsModulo(ds);
    TrueSumBound(ds, c);
  }

  lemma AcceptedConcat(a: seq<Option<RouteDestination>>, b: seq<Option<RouteDestination>>, c: Checks)
    requires EachAccepted(a, c) && EachAccepted(b, c)
    ensures EachAccepted(a + b, c)
  {
  }

  /** Destinations of weight 100, one of weight `rest`, and destinations of weight 0. */
  lemma StepList(full: nat, rest: uint32, empty: nat, d: Destination, c: Checks) returns (ds: seq<Option<RouteDestination>>)
    requires DestinationAccepted(Some(d), c) && rest <= 100
    ensures |ds| == full + 1 + empty && EachAccepted(ds, c) && TrueSum(ds) == 100 * full + rest
  {
    var a, b, z := Copies(d, 100, full), [Some(RouteDestination(Some(d), rest))], Copies(d, 0, empty);
    CopiesSum(d, 100, full, c);
    CopiesSum(d, 0, empty, c);
    SumConcat(a, b);
    SumConcat(a + b, z);
    AcceptedConcat(a, b, c);
    AcceptedConcat(a + b, z, c);
    ds := a + b + z;
    assert TrueSum(b) == rest by {
      assert b[..0] == [];
    }
  }

  /** One more, and a list that adds up to 2^32 + 100 is accepted too. */
  lemma WrappedListIsAccepted(n: nat, d: Destination, c: Checks) returns (ds: seq<Option<RouteDestination>>)
    requires n > MAX_DESTINATIONS && DestinationAccepted(Some(d), c)
    ensures |ds| == n && DestinationsAccepted(ds, c) && TrueSum(ds) == UINT32_RANGE + 100
  {
    ds := StepList(MAX_DESTINATIONS, 96, n - MAX_DESTINATIONS - 1, d, c);
    WrappedSumIsModulo(ds);
  }

  /** The weight check means that the weights add up to 100 exactly for lists of at most 42,949,673
      destinations. */
  lemma WeightCheckIsExactIff(n: nat, d: Destination, c: Checks)
    requires n > 1 && DestinationAccepted(Some(d), c)
    ensures n <= MAX_DESTINATIONS <==> forall ds :: |ds| == n && DestinationsAccepted(ds, c) ==> TrueSum(ds) == 100
  {
    if n <= MAX_DESTINATIONS {
      forall ds | |ds| == n && DestinationsAccepted(ds, c)
        ensures TrueSum(ds) == 100
      {
        AcceptedWeightsAddUp(ds, c);
      }
    } else {
      var _ := WrappedListIsAccepted(n, d, c);
    }
  }
}

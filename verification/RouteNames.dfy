/**
  The two control paths meet in a name: a generated sidecar filter subscribes to route
  configurations by name, and the route cache publishes them.
 */
module RouteNames {
  import opened Mesh
  import opened Text
  import opened Protocols
  import opened MetaRouting
  import opened RouteTranslation
  import opened RouteCache

  type Entries = seq<Config<ServiceEntry>>

  /** The route names of the first ports, as the filters subscribe to them. */
  function Subscribed(ports: seq<ServicePort>, host: string, protocols: Registry): seq<string> {
    if ports == [] then []
    else
      var last := ports[|ports| - 1];
      Subscribed(ports[..|ports| - 1], host, protocols) + (if IsMeta(protocols, last) then [RouteName(host, last.number)] else [])
  }

  /** The dash-separated parts of the port's name; the third is its application protocol. */
  function NameParts(port: ServicePort): seq<string> {
    Split(port.name, '-')
  }

  /** The port is reached, has an application protocol, and generation fails on it: no codec is registered
      for the protocol, or the inbound filters of the service's MetaRouter cannot be built. */
  predicate PortFails(port: ServicePort, protocols: Registry, codecs: set<string>, inboundFails: bool) {
    IsMeta(protocols, port) && |NameParts(port)| > 2 && (NameParts(port)[2] !in codecs || inboundFails)
  }

  /** For a MetaProtocol port named transport-protocol-application, the application protocol is what needs
      a codec. */
  lemma PortFailsIff(number: nat, transport: string, protocol: string, application: string,
                     protocols: Registry, codecs: set<string>, inboundFails: bool)
    requires '-' !in transport && '-' !in protocol && '-' !in application
    ensures var port := ServicePort(number, transport + ("-" + (protocol + ("-" + application))));
            PortFails(port, protocols, codecs, inboundFails) <==>
              Announces(protocols, protocol, MetaProtocol) && (application !in codecs || inboundFails)
  {
    ThreePartName(protocols, transport, protocol, application, MetaProtocol);
  }

  /** The sidecar filters of a service, seen through the route names they subscribe to. A MetaProtocol port
      whose name has only two parts makes the source index out of range, so none is reached. */
  method GenerateSidecarEnvoyFilters(se: ServiceEntry, protocols: Registry, codecs: set<string>, inboundFails: bool)
    returns (names: Option<seq<string>>)
    requires se.hosts != []
    requires forall i :: 0 <= i < |se.ports| && IsMeta(protocols, se.ports[i]) && |NameParts(se.ports[i])| <= 2 ==>
               exists j :: 0 <= j < i && PortFails(se.ports[j], protocols, codecs, inboundFails)
    ensures names.None? <==> exists i :: 0 <= i < |se.ports| && PortFails(se.ports[i], protocols, codecs, inboundFails)
    ensures names.Some? ==> names.value == Subscribed(se.ports, se.hosts[0], protocols)
  {
    var result: seq<string> := [];
    for i := 0 to |se.ports|
      invariant result == Subscribed(se.ports[..i], se.hosts[0], protocols)
      invariant forall j :: 0 <= j < i ==> !PortFails(se.ports[j], protocols, codecs, inboundFails)
    {
      assert se.ports[..i + 1][..i] == se.ports[..i];
      if IsMeta(protocols, se.ports[i]) {
        var application := NameParts(se.ports[i])[2];
        if application !in codecs {
          assert PortFails(se.ports[i], protocols, codecs, inboundFails);
          return None;
        }
        if inboundFails {
          assert PortFails(se.ports[i], protocols, codecs, inboundFails);
          return None;
        }
        result := result + [se.hosts[0] + "_" + Itoa(se.ports[i].number)];
      }
    }
    assert se.ports[..|se.ports|] == se.ports;
    return Some(result);
  }

  function NamesOf(routes: seq<RouteConfiguration>): seq<string> {
    seq(|routes|, i requires 0 <= i < |routes| => routes[i].name)
  }

  function NameOf(b: Blueprint): string {
    if b.service.hosts == [] then "" else RouteName(b.service.hosts[0], b.port.number)
  }

  function NamesFor(blueprints: seq<Blueprint>): seq<string> {
    seq(|blueprints|, i requires 0 <= i < |blueprints| => NameOf(blueprints[i]))
  }

  lemma BuiltNames(routes: seq<RouteConfiguration>, blueprints: seq<Blueprint>, clusterName: ClusterName)
    requires Built(routes, blueprints, clusterName)
    ensures NamesOf(routes) == NamesFor(blueprints)
  {
  }

  /** What a service subscribes to is, name by name, what the cache builds for it. */
  lemma {:induction false} PathsAgree(ports: seq<ServicePort>, se: ServiceEntry, router: Option<MetaRouter>, dr: Option<DestinationRule>, protocols: Registry)
    requires se.hosts != []
    ensures NamesFor(PortBlueprints(ports, se, router, dr, protocols)) == Subscribed(ports, se.hosts[0], protocols)
  {
    if ports != [] {
      PathsAgree(ports[..|ports| - 1], se, router, dr, protocols);
    }
  }

  function EntryNames(se: Config<ServiceEntry>, protocols: Registry): seq<string> {
    if se.spec.hosts == [] then [] else Subscribed(se.spec.ports, se.spec.hosts[0], protocols)
  }

  lemma NamesConcat(a: seq<Blueprint>, b: seq<Blueprint>)
    ensures NamesFor(a + b) == NamesFor(a) + NamesFor(b)
  {
  }

  lemma {:induction false} BlueprintNames(entries: Entries, rules: seq<Config<DestinationRule>>, routers: seq<MetaRouter>, protocols: Registry)
    ensures NamesFor(Blueprints(entries, rules, routers, protocols)) == FlatMap(entries, (se: Config<ServiceEntry>) => EntryNames(se, protocols))
  {
    if entries != [] {
      var init, last := entries[..|entries| - 1], entries[|entries| - 1];
      BlueprintNames(init, rules, routers, protocols);
      NamesConcat(Blueprints(init, rules, routers, protocols), EntryBlueprints(last, rules, routers, protocols));
      if last.spec.hosts != [] {
        PathsAgree(last.spec.ports, last.spec, RelatedRouter(routers, last.spec.hosts[0]), RelatedRule(rules, last), protocols);
      }
    }
  }

  /** The published names are the subscribed ones, service by service and port by port. */
  lemma PublishedNames(routes: seq<RouteConfiguration>, entries: Entries, rules: seq<Config<DestinationRule>>, routers: seq<MetaRouter>, protocols: Registry, clusterName: ClusterName)
    requires Generated(routes, entries, rules, routers, protocols, clusterName)
    ensures NamesOf(routes) == FlatMap(entries, (se: Config<ServiceEntry>) => EntryNames(se, protocols))
  {
    BuiltNames(routes, Blueprints(entries, rules, routers, protocols), clusterName);
    BlueprintNames(entries, rules, routers, protocols);
  }

  /** Every name that a service's filters subscribe to is published from the same store. */
  lemma SubscribedIsPublished(routes: seq<RouteConfiguration>, entries: Entries, rules: seq<Config<DestinationRule>>, routers: seq<MetaRouter>,
                              protocols: Registry, clusterName: ClusterName, k: nat)
    requires Generated(routes, entries, rules, routers, protocols, clusterName)
    requires k < |entries| && entries[k].spec.hosts != []
    ensures forall name :: name in Subscribed(entries[k].spec.ports, entries[k].spec.hosts[0], protocols) ==> name in NamesOf(routes)
  {
    PublishedNames(routes, entries, rules, routers, protocols, clusterName);
    FlatMapHas(entries, k, (se: Config<ServiceEntry>) => EntryNames(se, protocols));
  }

  // --- Exactly once ---

  predicate Unique(names: seq<string>) {
    forall i, j :: 0 <= i < j < |names| ==> names[i] != names[j]
  }

  predicate PortsDiffer(ports: seq<ServicePort>) {
    forall i, j :: 0 <= i < j < |ports| ==> ports[i].number != ports[j].number
  }

  lemma {:induction false} SubscribedFrom(ports: seq<ServicePort>, host: string, protocols: Registry, name: string) returns (k: nat)
    requires name in Subscribed(ports, host, protocols)
    ensures k < |ports| && name == RouteName(host, ports[k].number)
  {
    var init, last := ports[..|ports| - 1], ports[|ports| - 1];
    if name in Subscribed(init, host, protocols) {
      k := SubscribedFrom(init, host, protocols, name);
    } else {
      k := |ports| - 1;
    }
  }

  lemma {:induction false} SubscribedUnique(ports: seq<ServicePort>, host: string, protocols: Registry)
    requires PortsDiffer(ports)
    ensures Unique(Subscribed(ports, host, protocols))
  {
    if ports != [] {
      var init, last := ports[..|ports| - 1], ports[|ports| - 1];
      SubscribedUnique(init, host, protocols);
      if RouteName(host, last.number) in Subscribed(init, host, protocols) {
        var k := SubscribedFrom(init, host, protocols, RouteName(host, last.number));
        CutNumber(host, last.number, host, init[k].number, '_');
      }
    }
  }

  /** Services have different first hosts, and the ports of a service have different numbers. */
  ghost predicate WellSeparated(entries: Entries) {
    && (forall i :: 0 <= i < |entries| ==> PortsDiffer(entries[i].spec.ports))
    && (forall i, j :: 0 <= i < j < |entries| && entries[i].spec.hosts != [] && entries[j].spec.hosts != []
                       ==> entries[i].spec.hosts[0] != entries[j].spec.hosts[0])
  }

  lemma {:induction false} NameFrom(entries: Entries, protocols: Registry, name: string) returns (k: nat)
    requires name in FlatMap(entries, (se: Config<ServiceEntry>) => EntryNames(se, protocols))
    ensures k < |entries| && entries[k].spec.hosts != [] && name in Subscribed(entries[k].spec.ports, entries[k].spec.hosts[0], protocols)
  {
    var init, last := entries[..|entries| - 1], entries[|entries| - 1];
    if name in EntryNames(last, protocols) {
      k := |entries| - 1;
    } else {
      k := NameFrom(init, protocols, name);
    }
  }

  lemma {:induction false} EntryNamesUnique(entries: Entries, protocols: Registry)
    requires WellSeparated(entries)
    ensures Unique(FlatMap(entries, (se: Config<ServiceEntry>) => EntryNames(se, protocols)))
  {
    if entries != [] {
      var init, last := entries[..|entries| - 1], entries[|entries| - 1];
      var before := FlatMap(init, (se: Config<ServiceEntry>) => EntryNames(se, protocols));
      EntryNamesUnique(init, protocols);
      if last.spec.hosts != [] {
        SubscribedUnique(last.spec.ports, last.spec.hosts[0], protocols);
      }
      assert init + [last] == entries;
      forall name | name in EntryNames(last, protocols)
        ensures name !in before
      {
        NamesDisjoint(init, last, protocols, name);
      }
      UniqueConcat(before, EntryNames(last, protocols));
    }
  }

  lemma UniqueConcat(a: seq<string>, b: seq<string>)
    requires Unique(a) && Unique(b) && forall name :: name in b ==> name !in a
    ensures Unique(a + b)
  {
    forall i, j | 0 <= i < j < |a + b|
      ensures (a + b)[i] != (a + b)[j]
    {
      assert i < |a| <= j ==> a[i] in a && b[j - |a|] in b;
    }
  }

  lemma NamesDisjoint(init: Entries, last: Config<ServiceEntry>, protocols: Registry, name: string)
    requires WellSeparated(init + [last])
    requires name in EntryNames(last, protocols)
    ensures name !in FlatMap(init, (se: Config<ServiceEntry>) => EntryNames(se, protocols))
  {
    var all := init + [last];
    assert all[|init|] == last && forall k :: 0 <= k < |init| ==> all[k] == init[k];
    if name in FlatMap(init, (se: Config<ServiceEntry>) => EntryNames(se, protocols)) {
      var k := NameFrom(init, protocols, name);
      var i := SubscribedFrom(all[k].spec.ports, all[k].spec.hosts[0], protocols, name);
      var j := SubscribedFrom(last.spec.ports, last.spec.hosts[0], protocols, name);
      CutNumber(all[k].spec.hosts[0], all[k].spec.ports[i].number, last.spec.hosts[0], last.spec.ports[j].number, '_');
    }
  }

  /** With different first hosts and port numbers, every published name is published once, so a
      subscription finds exactly one route configuration. */
  lemma PublishedOnce(routes: seq<RouteConfiguration>, entries: Entries, rules: seq<Config<DestinationRule>>, routers: seq<MetaRouter>,
                      protocols: Registry, clusterName: ClusterName)
    requires Generated(routes, entries, rules, routers, protocols, clusterName) && WellSeparated(entries)
    ensures Unique(NamesOf(routes))
  {
    PublishedNames(routes, entries, rules, routers, protocols, clusterName);
    EntryNamesUnique(entries, protocols);
  }
}

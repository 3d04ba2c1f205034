/**
  Route-cache invalidation: two filters stand between a configuration event and the rebuilding of the
  routes. Which changes of the generated routes get through?
 */
module CacheInvalidation {
  import opened Mesh
  import opened Text
  import opened Protocols
  import opened MetaRouting
  import opened RouteTranslation
  import opened RouteCache

  /** A configuration event. A deletion delivers the deleted object as the current one, and additions
      and deletions have no previous object. */
  datatype Event<+T> = Added(curr: Config<T>) | Updated(prev: Config<T>, curr: Config<T>) | Deleted(curr: Config<T>)
  {
    function Prev(): Option<Config<T>> { if Updated? then Some(prev) else None }
  }

  type Entries = seq<Config<ServiceEntry>>
  type Rules = seq<Config<DestinationRule>>

  /** The list before and after the event; the unaffected objects keep their order. */
  function Before<T>(event: Event<T>, pre: seq<Config<T>>, post: seq<Config<T>>): seq<Config<T>> {
    match event
    case Added(_) => pre + post
    case Updated(prev, _) => pre + [prev] + post
    case Deleted(curr) => pre + [curr] + post
  }

  function After<T>(event: Event<T>, pre: seq<Config<T>>, post: seq<Config<T>>): seq<Config<T>> {
    match event
    case Added(curr) => pre + [curr] + post
    case Updated(_, curr) => pre + [curr] + post
    case Deleted(_) => pre + post
  }

  predicate SameObject<T>(event: Event<T>) {
    event.Updated? ==> event.prev.namespace == event.curr.namespace && event.prev.name == event.curr.name
  }

  // --- The filters ---

  /** An update that changes nothing in the spec goes no further. */
  predicate Changes<T(==)>(event: Event<T>) {
    event.Updated? ==> event.prev.spec != event.curr.spec
  }

  predicate EntryEventPushed(event: Event<ServiceEntry>, protocols: Registry) {
    && Changes(event)
    && (HasSupportedPort(protocols, event.curr.spec) || (event.Prev().Some? && HasSupportedPort(protocols, event.Prev().value.spec)))
    && (HasTcpMetaPort(event.curr.spec) || (event.Prev().Some? && HasTcpMetaPort(event.Prev().value.spec)))
  }

  /** Some host of the entry is the rule's. */
  predicate Touches(dr: Config<DestinationRule>, se: Config<ServiceEntry>) {
    Any(se.spec.hosts, (host: string) => IsFQDNEquals(host, se.namespace, dr.spec.host, dr.namespace))
  }

  predicate HandlesRule(dr: Config<DestinationRule>, entries: Entries, protocols: Registry) {
    Any(entries, (se: Config<ServiceEntry>) => Touches(dr, se) && HasSupportedPort(protocols, se.spec))
  }

  predicate RuleNeedsUpdate(dr: Config<DestinationRule>, entries: Entries) {
    RelatedEntry(entries, dr).Some? && HasTcpMetaPort(RelatedEntry(entries, dr).value.spec)
  }

  predicate RuleEventPushed(event: Event<DestinationRule>, entries: Entries, protocols: Registry) {
    && Changes(event)
    && (HandlesRule(event.curr, entries, protocols) || (event.Prev().Some? && HandlesRule(event.Prev().value, entries, protocols)))
    && (RuleNeedsUpdate(event.curr, entries) || (event.Prev().Some? && RuleNeedsUpdate(event.Prev().value, entries)))
  }

  /** Some port announces a registered protocol. */
  predicate Announced(se: ServiceEntry, protocols: Registry) {
    exists port :: port in se.ports && Layer7(protocols, port.name) != Unsupported
  }

  /** Some port is named as the route cache expects it. */
  predicate NamedTcpMeta(se: ServiceEntry) {
    exists port :: port in se.ports && "tcp-metaprotocol" <= port.name
  }

  /** The first filter, for a rule: some entry with such a port has the rule's host among its hosts. */
  lemma HandlesRuleIff(dr: Config<DestinationRule>, entries: Entries, protocols: Registry)
    ensures HandlesRule(dr, entries, protocols) <==>
            exists se, host :: && se in entries && host in se.spec.hosts && IsFQDNEquals(host, se.namespace, dr.spec.host, dr.namespace)
                               && Announced(se.spec, protocols)
  {
    forall se | se in entries
      ensures HasSupportedPort(protocols, se.spec) <==> Announced(se.spec, protocols)
      ensures Touches(dr, se) <==> exists host :: host in se.spec.hosts && IsFQDNEquals(host, se.namespace, dr.spec.host, dr.namespace)
    {
    }
    var p := (se: Config<ServiceEntry>) => Touches(dr, se) && HasSupportedPort(protocols, se.spec);
    assert Any(entries, p) <==> exists se :: se in entries && p(se);
  }

  method ShouldHandleServiceEntry(protocols: Registry, se: ServiceEntry) returns (r: bool)
    ensures r == HasSupportedPort(protocols, se)
  {
    r := SearchAny(se.ports, (port: ServicePort) => IsSupported(protocols, port));
  }

  method ShouldHandleDestinationRule(dr: Config<DestinationRule>, entries: Entries, protocols: Registry) returns (r: bool)
    ensures r == HandlesRule(dr, entries, protocols)
  {
    r := SearchAny(entries, (se: Config<ServiceEntry>) => Touches(dr, se) && HasSupportedPort(protocols, se.spec));
  }

  method HasTcpMetaProtocolPort(se: ServiceEntry) returns (r: bool)
    ensures r == HasTcpMetaPort(se)
  {
    r := SearchAny(se.ports, (port: ServicePort) => IsTcpMeta(port));
  }

  /** The handler wrapper and ConfigUpdated, for a ServiceEntry event. */
  method OnServiceEntry(event: Event<ServiceEntry>, protocols: Registry) returns (pushed: bool)
    ensures pushed == EntryEventPushed(event, protocols)
    ensures pushed <==>
            && (event.Updated? ==> event.prev.spec != event.curr.spec)
            && (Announced(event.curr.spec, protocols) || (event.Updated? && Announced(event.prev.spec, protocols)))
            && (NamedTcpMeta(event.curr.spec) || (event.Updated? && NamedTcpMeta(event.prev.spec)))
  {
    if event.Updated? && event.prev.spec == event.curr.spec {
      return false;
    }
    var handle := ShouldHandleServiceEntry(protocols, event.curr.spec);
    if !handle && event.Updated? {
      handle := ShouldHandleServiceEntry(protocols, event.prev.spec);
    }
    if !handle {
      return false;
    }
    pushed := HasTcpMetaProtocolPort(event.curr.spec);
    if !pushed && event.Updated? {
      pushed := HasTcpMetaProtocolPort(event.prev.spec);
    }
  }

  /** The second filter, for a rule: the first entry that has it as the rule of its first host has a port
      named as expected. */
  lemma RuleNeedsUpdateIff(dr: Config<DestinationRule>, entries: Entries)
    ensures RuleNeedsUpdate(dr, entries) <==>
            exists i :: && 0 <= i < |entries| && Governs(dr, entries[i]) && NamedTcpMeta(entries[i].spec)
                        && forall j :: 0 <= j < i ==> !Governs(dr, entries[j])
  {
    var p := (se: Config<ServiceEntry>) => Governs(dr, se);
    if RelatedEntry(entries, dr).Some? {
      var i :| IsFirst(entries, p, i) && entries[i] == RelatedEntry(entries, dr).value;
      TcpMetaIff(entries[i].spec);
      assert p(entries[i]) && forall j :: 0 <= j < i ==> !p(entries[j]);
      assert Governs(dr, entries[i]) && forall j :: 0 <= j < i ==> !Governs(dr, entries[j]);
    } else {
      assert forall i :: 0 <= i < |entries| ==> entries[i] in entries && !p(entries[i]);
    }
  }

  method ShouldUpdateForRule(dr: Config<DestinationRule>, entries: Entries) returns (r: bool)
    requires Searchable(entries, dr)
    ensures r == RuleNeedsUpdate(dr, entries)
  {
    var se := FindRelatedServiceEntry(entries, dr);
    if se.None? {
      return false;
    }
    r := HasTcpMetaProtocolPort(se.value.spec);
  }

  /** Where the search for the related entry is made, it does not meet an entry without hosts. */
  ghost predicate RuleEventSafe(event: Event<DestinationRule>, entries: Entries, protocols: Registry) {
    Changes(event) && (HandlesRule(event.curr, entries, protocols) || (event.Updated? && HandlesRule(event.prev, entries, protocols))) ==>
      && Searchable(entries, event.curr)
      && (event.Updated? && !RuleNeedsUpdate(event.curr, entries) ==> Searchable(entries, event.prev))
  }

  /** The handler wrapper and ConfigUpdated, for a DestinationRule event. */
  method OnDestinationRule(event: Event<DestinationRule>, entries: Entries, protocols: Registry) returns (pushed: bool)
    requires RuleEventSafe(event, entries, protocols)
    ensures pushed == RuleEventPushed(event, entries, protocols)
  {
    if event.Updated? && event.prev.spec == event.curr.spec {
      return false;
    }
    var handle := ShouldHandleDestinationRule(event.curr, entries, protocols);
    if !handle && event.Updated? {
      handle := ShouldHandleDestinationRule(event.prev, entries, protocols);
    }
    if !handle {
      return false;
    }
    pushed := ShouldUpdateForRule(event.curr, entries);
    if !pushed && event.Updated? {
      pushed := ShouldUpdateForRule(event.prev, entries);
    }
  }

  // --- ServiceEntry events ---

  /** Only entries with a MetaProtocol port have routes, and such ports are supported ones. */
  lemma RoutesNeedMetaPort(se: Config<ServiceEntry>, rules: Rules, routers: seq<MetaRouter>, protocols: Registry)
    requires EntryBlueprints(se, rules, routers, protocols) != []
    ensures HasMetaPort(protocols, se.spec) && HasSupportedPort(protocols, se.spec) && se.spec.hosts != []
  {
    if !HasMetaPort(protocols, se.spec) {
      NoMetaNoRoutes(se.spec.ports, se.spec, RelatedRouter(routers, se.spec.hosts[0]), RelatedRule(rules, se), protocols);
    }
    var i :| 0 <= i < |se.spec.ports| && IsMeta(protocols, se.spec.ports[i]);
    assert IsSupported(protocols, se.spec.ports[i]);
  }

  lemma ChangedEntryHasMetaPort(event: Event<ServiceEntry>, pre: Entries, post: Entries, rules: Rules, routers: seq<MetaRouter>, protocols: Registry)
    requires Blueprints(Before(event, pre, post), rules, routers, protocols) != Blueprints(After(event, pre, post), rules, routers, protocols)
    ensures Changes(event) || event.prev.namespace != event.curr.namespace || event.prev.name != event.curr.name
    ensures || (HasMetaPort(protocols, event.curr.spec) && HasSupportedPort(protocols, event.curr.spec))
            || (event.Updated? && HasMetaPort(protocols, event.prev.spec) && HasSupportedPort(protocols, event.prev.spec))
  {
    var f := (se: Config<ServiceEntry>) => EntryBlueprints(se, rules, routers, protocols);
    FlatMapAround(pre, event.curr, post, f);
    if event.Updated? {
      FlatMapAround(pre, event.prev, post, f);
    }
    if EntryBlueprints(event.curr, rules, routers, protocols) != [] {
      RoutesNeedMetaPort(event.curr, rules, routers, protocols);
    } else {
      RoutesNeedMetaPort(event.prev, rules, routers, protocols);
    }
  }

  lemma TcpMetaIff(se: ServiceEntry)
    ensures HasTcpMetaPort(se) <==> NamedTcpMeta(se)
  {
  }

  /** A ServiceEntry event that changes what the routes are built from is pushed exactly when the entry,
      before or after, has a port whose name starts with tcp-metaprotocol. */
  lemma EntryEventPushedIff(event: Event<ServiceEntry>, pre: Entries, post: Entries, rules: Rules, routers: seq<MetaRouter>, protocols: Registry)
    requires SameObject(event)
    requires Blueprints(Before(event, pre, post), rules, routers, protocols) != Blueprints(After(event, pre, post), rules, routers, protocols)
    ensures EntryEventPushed(event, protocols) <==> NamedTcpMeta(event.curr.spec) || (event.Updated? && NamedTcpMeta(event.prev.spec))
    ensures HasMetaPort(protocols, event.curr.spec) || (event.Updated? && HasMetaPort(protocols, event.prev.spec))
  {
    ChangedEntryHasMetaPort(event, pre, post, rules, routers, protocols);
    TcpMetaIff(event.curr.spec);
    if event.Updated? {
      TcpMetaIff(event.prev.spec);
    }
  }

  /** Port names follow the convention: every MetaProtocol port is called tcp-metaprotocol… */
  ghost predicate Conventional(protocols: Registry, se: ServiceEntry) {
    forall i :: 0 <= i < |se.ports| && IsMeta(protocols, se.ports[i]) ==> "tcp-metaprotocol" <= se.ports[i].name
  }

  lemma ConventionalMeta(protocols: Registry, se: ServiceEntry)
    requires Conventional(protocols, se) && HasMetaPort(protocols, se)
    ensures HasTcpMetaPort(se)
  {
    var i :| 0 <= i < |se.ports| && IsMeta(protocols, se.ports[i]);
    assert IsTcpMeta(se.ports[i]);
  }

  /** With conventional port names, no ServiceEntry event that changes the possible output of the
      generation is missed. */
  lemma EntryInvalidationComplete(event: Event<ServiceEntry>, pre: Entries, post: Entries, rules: Rules, routers: seq<MetaRouter>,
                                  protocols: Registry, clusterName: ClusterName, routes: seq<RouteConfiguration>)
    requires SameObject(event)
    requires Conventional(protocols, event.curr.spec) && (event.Updated? ==> Conventional(protocols, event.prev.spec))
    requires Generated(routes, Before(event, pre, post), rules, routers, protocols, clusterName)
          != Generated(routes, After(event, pre, post), rules, routers, protocols, clusterName)
    ensures EntryEventPushed(event, protocols)
  {
    EntryEventPushedIff(event, pre, post, rules, routers, protocols);
    if HasMetaPort(protocols, event.curr.spec) {
      ConventionalMeta(protocols, event.curr.spec);
    } else {
      ConventionalMeta(protocols, event.prev.spec);
    }
  }

  // --- DestinationRule events ---

  lemma {:induction false} FindSkips<T>(pre: seq<T>, x: T, post: seq<T>, p: T -> bool)
    requires !p(x)
    ensures Find(pre + [x] + post, p) == Find(pre + post, p)
  {
    if pre == [] {
      assert pre + [x] + post == [x] + post && ([x] + post)[1..] == post && pre + post == post;
    } else {
      assert (pre + [x] + post)[1..] == pre[1..] + [x] + post && (pre + post)[1..] == pre[1..] + post;
      assert (pre + [x] + post)[0] == pre[0] && (pre + post)[0] == pre[0];
      FindSkips(pre[1..], x, post, p);
    }
  }

  predicate Concerns(event: Event<DestinationRule>, se: Config<ServiceEntry>) {
    Governs(event.curr, se) || (event.Updated? && Governs(event.prev, se))
  }

  /** An entry that the event does not concern keeps its DestinationRule. */
  lemma UnconcernedKeepsRule(event: Event<DestinationRule>, pre: Rules, post: Rules, se: Config<ServiceEntry>)
    requires !Concerns(event, se)
    ensures RelatedRule(Before(event, pre, post), se) == RelatedRule(After(event, pre, post), se)
  {
    var p := (dr: Config<DestinationRule>) => Governs(dr, se);
    FindSkips(pre, event.curr, post, p);
    if event.Updated? {
      FindSkips(pre, event.prev, post, p);
    }
  }

  /** Changed routes are those of some entry, which the event concerns. */
  lemma ChangedEntry(event: Event<DestinationRule>, pre: Rules, post: Rules, entries: Entries, routers: seq<MetaRouter>, protocols: Registry)
    returns (i: nat)
    requires Blueprints(entries, Before(event, pre, post), routers, protocols) != Blueprints(entries, After(event, pre, post), routers, protocols)
    ensures i < |entries| && Concerns(event, entries[i]) && HasMetaPort(protocols, entries[i].spec) && HasSupportedPort(protocols, entries[i].spec)
  {
    var rules, rules' := Before(event, pre, post), After(event, pre, post);
    i := FlatMapDiffers(entries, (se: Config<ServiceEntry>) => EntryBlueprints(se, rules, routers, protocols),
                        (se: Config<ServiceEntry>) => EntryBlueprints(se, rules', routers, protocols));
    var se := entries[i];
    if !Concerns(event, se) {
      UnconcernedKeepsRule(event, pre, post, se);
    }
    if EntryBlueprints(se, rules, routers, protocols) != [] {
      RoutesNeedMetaPort(se, rules, routers, protocols);
    } else {
      RoutesNeedMetaPort(se, rules', routers, protocols);
    }
  }

  /** The first filter looks at all hosts, so it lets through what concerns a first host. */
  lemma GovernedIsHandled(dr: Config<DestinationRule>, entries: Entries, i: nat, protocols: Registry)
    requires i < |entries| && Governs(dr, entries[i]) && HasSupportedPort(protocols, entries[i].spec)
    ensures HandlesRule(dr, entries, protocols)
  {
    var se := entries[i];
    var p := (host: string) => IsFQDNEquals(host, se.namespace, dr.spec.host, dr.namespace);
    assert p(se.spec.hosts[0]);
    assert Touches(dr, se);
  }

  /** A DestinationRule event that changes what the routes are built from is pushed exactly when the first
      entry whose first host is the rule's, before or after, has a port named tcp-metaprotocol… */
  lemma {:induction false} RuleEventPushedIff(event: Event<DestinationRule>, pre: Rules, post: Rules, entries: Entries, routers: seq<MetaRouter>, protocols: Registry)
    requires SameObject(event)
    requires Blueprints(entries, Before(event, pre, post), routers, protocols) != Blueprints(entries, After(event, pre, post), routers, protocols)
    ensures RuleEventPushed(event, entries, protocols) <==>
            RuleNeedsUpdate(event.curr, entries) || (event.Updated? && RuleNeedsUpdate(event.prev, entries))
  {
    var i := ChangedEntry(event, pre, post, entries, routers, protocols);
    if Governs(event.curr, entries[i]) {
      GovernedIsHandled(event.curr, entries, i, protocols);
    } else {
      GovernedIsHandled(event.prev, entries, i, protocols);
    }
  }

  /** No two entries have the same fully qualified first host. */
  ghost predicate FirstHostsDiffer(entries: Entries) {
    forall i, j :: 0 <= i < |entries| && 0 <= j < |entries| && i != j && entries[i].spec.hosts != [] && entries[j].spec.hosts != []
      ==> !IsFQDNEquals(entries[i].spec.hosts[0], entries[i].namespace, entries[j].spec.hosts[0], entries[j].namespace)
  }

  lemma OnlyRelatedEntry(entries: Entries, dr: Config<DestinationRule>, i: nat)
    requires FirstHostsDiffer(entries) && i < |entries| && Governs(dr, entries[i])
    ensures RelatedEntry(entries, dr) == Some(entries[i])
  {
    assert entries[i] in entries;
    var se := RelatedEntry(entries, dr).value;
    var j :| 0 <= j < |entries| && entries[j] == se;
  }

  /** With conventional port names and different first hosts, no DestinationRule event that changes the
      possible output of the generation is missed. */
  lemma {:induction false} RuleInvalidationComplete(event: Event<DestinationRule>, pre: Rules, post: Rules, entries: Entries, routers: seq<MetaRouter>,
                                                    protocols: Registry, clusterName: ClusterName, routes: seq<RouteConfiguration>)
    requires SameObject(event) && FirstHostsDiffer(entries)
    requires forall i :: 0 <= i < |entries| ==> Conventional(protocols, entries[i].spec)
    requires Generated(routes, entries, Before(event, pre, post), routers, protocols, clusterName)
          != Generated(routes, entries, After(event, pre, post), routers, protocols, clusterName)
    ensures RuleEventPushed(event, entries, protocols)
  {
    RuleEventPushedIff(event, pre, post, entries, routers, protocols);
    var i := ChangedEntry(event, pre, post, entries, routers, protocols);
    ConventionalMeta(protocols, entries[i].spec);
    if Governs(event.curr, entries[i]) {
      OnlyRelatedEntry(entries, event.curr, i);
    } else {
      OnlyRelatedEntry(entries, event.prev, i);
    }
  }

  // --- What is missed otherwise ---

  lemma OnePort(se: Config<ServiceEntry>, port: ServicePort, rules: Rules, protocols: Registry)
    requires se.spec.hosts != [] && se.spec.ports == [port]
    ensures EntryBlueprints(se, rules, [], protocols) ==
            if IsMeta(protocols, port) then [Blueprint(se.spec, port, None, RelatedRule(rules, se))] else []
  {
    var dr := RelatedRule(rules, se);
    assert [port][..0] == [];
    assert PortBlueprints([port], se.spec, None, dr, protocols)
        == PortBlueprints([], se.spec, None, dr, protocols) + (if IsMeta(protocols, port) then [Blueprint(se.spec, port, None, dr)] else []);
  }

  lemma FlatMapTwo<T, U>(a: T, b: T, f: T -> seq<U>)
    ensures FlatMap([a, b], f) == f(a) + f(b)
  {
    FlatMapConcat([a], [b], f);
    assert [a][..0] == [] && FlatMap([a], f) == f(a);
    assert [b][..0] == [] && FlatMap([b], f) == f(b);
    assert [a] + [b] == [a, b];
  }

  lemma TwoEntries(a: Config<ServiceEntry>, b: Config<ServiceEntry>, rules: Rules, protocols: Registry)
    ensures Blueprints([a, b], rules, [], protocols) == EntryBlueprints(a, rules, [], protocols) + EntryBlueprints(b, rules, [], protocols)
  {
    FlatMapTwo(a, b, (se: Config<ServiceEntry>) => EntryBlueprints(se, rules, [], protocols));
  }

  /** A MetaProtocol port that does not follow the naming convention has routes, but adding its service,
      after which no output is what it was, is not noticed. */
  lemma {:induction false} UnconventionalPortIsMissed(protocols: Registry, port: ServicePort, host: string, rules: Rules,
                                                      clusterName: ClusterName, routes: seq<RouteConfiguration>)
    requires IsMeta(protocols, port) && !IsTcpMeta(port)
    ensures var event := Added(Config("ns", "a", ServiceEntry([host], [], [port], STATIC)));
            && !(Generated(routes, Before(event, [], []), rules, [], protocols, clusterName) &&
                 Generated(routes, After(event, [], []), rules, [], protocols, clusterName))
            && !EntryEventPushed(event, protocols)
  {
    var c := Config("ns", "a", ServiceEntry([host], [], [port], STATIC));
    OnePort(c, port, rules, protocols);
    FlatMapAround([], c, [], (se: Config<ServiceEntry>) => EntryBlueprints(se, rules, [], protocols));
    var none: Entries := [];
    assert none + none == none;
  }

  /** With the built-in protocols, such are the ports of any transport other than tcp. */
  lemma UnconventionalName(transport: string, application: string, number: nat)
    requires '-' !in transport && '-' !in application && transport != "tcp"
    ensures var port := ServicePort(number, transport + ("-" + ("metaprotocol" + ("-" + application))));
            IsMeta(BUILT_IN, port) && !IsTcpMeta(port)
  {
    LowerCaseAnnounces(BUILT_IN, "metaprotocol");
    ThreePartName(BUILT_IN, transport, "metaprotocol", application, MetaProtocol);
    TransportIsPrefix(transport, "-" + ("metaprotocol" + ("-" + application)));
  }

  lemma TransportIsPrefix(transport: string, rest: string)
    requires '-' !in transport && rest != "" && rest[0] == '-'
    ensures HasPrefix(transport + rest, "tcp-metaprotocol") ==> transport == "tcp"
  {
    var name := transport + rest;
    if HasPrefix(name, "tcp-metaprotocol") {
      assert name[0] == 't' && name[1] == 'c' && name[2] == 'p' && name[3] == '-';
      assert forall i :: 0 <= i < |transport| ==> transport[i] == name[i] && transport[i] in transport;
      assert name[|transport|] == '-';
      assert |transport| == 3;
    }
  }

  /** Two services with the same first host, of which only the second has a MetaProtocol port. */
  function SharedHost(host: string, other: ServicePort, meta: ServicePort): Entries {
    [Config("ns", "a", ServiceEntry([host], [], [other], STATIC)), Config("ns", "b", ServiceEntry([host], [], [meta], STATIC))]
  }

  lemma SharedHostBlueprints(host: string, other: ServicePort, meta: ServicePort, rules: Rules, protocols: Registry)
    requires IsMeta(protocols, meta) && !IsMeta(protocols, other)
    ensures var entries := SharedHost(host, other, meta);
            Blueprints(entries, rules, [], protocols) == [Blueprint(entries[1].spec, meta, None, RelatedRule(rules, entries[1]))]
  {
    var entries := SharedHost(host, other, meta);
    OnePort(entries[0], other, rules, protocols);
    OnePort(entries[1], meta, rules, protocols);
    TwoEntries(entries[0], entries[1], rules, protocols);
  }

  lemma OneDefaultRoute(routes: seq<RouteConfiguration>, se: ServiceEntry, port: ServicePort, rule: Option<DestinationRule>, clusterName: ClusterName)
    requires Built(routes, [Blueprint(se, port, None, rule)], clusterName)
    ensures se.hosts != [] && routes == [DefaultRoute(se.hosts[0], port.number, rule, clusterName)]
  {
    assert Builds(routes[0], Blueprint(se, port, None, rule), clusterName);
  }

  lemma HashChangesDefault(host: string, port: nat, dr: DestinationRule, clusterName: ClusterName)
    requires HeaderName(dr.trafficPolicy) != ""
    ensures DefaultRoute(host, port, None, clusterName) != DefaultRoute(host, port, Some(dr), clusterName)
  {
    var before, after := DefaultRoute(host, port, None, clusterName), DefaultRoute(host, port, Some(dr), clusterName);
    assert before.routes[0].action.hashPolicy == [] && |after.routes[0].action.hashPolicy| == 1;
  }

  lemma SharedHostChanges(protocols: Registry, other: ServicePort, meta: ServicePort, rule: Config<DestinationRule>,
                          clusterName: ClusterName, routes: seq<RouteConfiguration>)
    requires rule.namespace == "ns"
    requires IsMeta(protocols, meta) && !IsMeta(protocols, other) && HeaderName(rule.spec.trafficPolicy) != ""
    ensures var entries := SharedHost(rule.spec.host, other, meta);
            !(Generated(routes, entries, [], [], protocols, clusterName) && Generated(routes, entries, [rule], [], protocols, clusterName))
  {
    var entries := SharedHost(rule.spec.host, other, meta);
    SharedHostBlueprints(rule.spec.host, other, meta, [], protocols);
    SharedHostBlueprints(rule.spec.host, other, meta, [rule], protocols);
    assert RelatedRule([], entries[1]) == None && RelatedRule([rule], entries[1]) == Some(rule.spec);
    if Generated(routes, entries, [], [], protocols, clusterName) && Generated(routes, entries, [rule], [], protocols, clusterName) {
      OneDefaultRoute(routes, entries[1].spec, meta, None, clusterName);
      OneDefaultRoute(routes, entries[1].spec, meta, Some(rule.spec), clusterName);
      HashChangesDefault(rule.spec.host, meta.number, rule.spec, clusterName);
    }
  }

  /** If the first also has no port named tcp-metaprotocol…, a new DestinationRule for the host that sets
      a hash header changes the second one's routes, so that no output is what it was, and is not
      noticed. */
  lemma {:induction false} SharedHostIsMissed(protocols: Registry, other: ServicePort, meta: ServicePort, dr: DestinationRule,
                                              clusterName: ClusterName, routes: seq<RouteConfiguration>)
    requires IsMeta(protocols, meta) && !IsMeta(protocols, other) && !IsTcpMeta(other)
    requires HeaderName(dr.trafficPolicy) != ""
    ensures var event, entries := Added(Config("ns", "d", dr)), SharedHost(dr.host, other, meta);
            && !(Generated(routes, entries, Before(event, [], []), [], protocols, clusterName) &&
                 Generated(routes, entries, After(event, [], []), [], protocols, clusterName))
            && !RuleEventPushed(event, entries, protocols)
  {
    var rule, entries := Config("ns", "d", dr), SharedHost(dr.host, other, meta);
    var none: Rules := [];
    assert none + none == none && none + [rule] + none == [rule];
    SharedHostChanges(protocols, other, meta, rule, clusterName, routes);
    assert RelatedEntry(entries, rule) == Some(entries[0]);
  }
}

/**
  The names of generated EnvoyFilters, the key they are compared under, and the listeners they
  patch: exactly when these strings identify what they were built from.
 */
module FilterNames {
  import opened Mesh
  import opened Text
  import opened VipAllocator
  import opened VipRuns
  import opened VipRoom

  function MapKey(name: string, ns: string): string {
    ns + "-" + name
  }

  function OutboundName(host: string, vip: string, port: nat): string {
    "aeraki-outbound-" + host + "-" + vip + "-" + Itoa(port)
  }

  function InboundName(host: string, port: nat): string {
    "aeraki-inbound-" + host + "-" + Itoa(port)
  }

  function ListenerName(vip: string, port: nat): string {
    vip + "_" + Itoa(port)
  }

  // --- The map key ---

  ghost predicate KeysIdentify(namespaces: set<string>) {
    forall ns, ns', name, name' ::
      && ns in namespaces && ns' in namespaces
      && HasPrefix(name, "aeraki-") && HasPrefix(name', "aeraki-")
      && MapKey(name, ns) == MapKey(name', ns')
      ==> ns == ns' && name == name'
  }

  lemma LongerNamespace(ns: string, name: string, ns': string, name': string)
    requires MapKey(name, ns) == MapKey(name', ns') && |ns| < |ns'|
    requires HasPrefix(name, "aeraki-")
    ensures HasPrefix(ns' + "-", ns + "-aeraki-")
  {
    var key := MapKey(name, ns);
    assert key[..|ns'| + 1] == ns' + "-";
    assert key[|ns|..] == "-" + name;
    var d := |ns'| - |ns|;
    assert key[|ns'|] == '-' && name[d - 1] == '-';
    assert "aeraki-"[0] == 'a' && "aeraki-"[1] == 'e' && "aeraki-"[2] == 'r' && "aeraki-"[3] == 'a' && "aeraki-"[4] == 'k' && "aeraki-"[5] == 'i';
    assert d >= 7;
    assert key[..|ns| + 8] == ns + "-aeraki-";
  }

  lemma CollidingNames(ns: string, ns': string) returns (name: string, name': string)
    requires HasPrefix(ns' + "-", ns + "-aeraki-")
    ensures HasPrefix(name, "aeraki-") && HasPrefix(name', "aeraki-")
    ensures MapKey(name, ns) == MapKey(name', ns') && name != name'
  {
    var s := ns' + "-";
    name' := "aeraki-x";
    name := s[|ns| + 1..] + name';
    assert s[..|ns| + 8] == ns + "-aeraki-";
    assert s[..|ns| + 1] == ns + "-";
    assert name[..7] == s[|ns| + 1..|ns| + 8] == "aeraki-";
    assert MapKey(name, ns) == s[..|ns| + 1] + name == s + name';
    assert |name| > |name'|;
  }

  lemma SameKeySameFilter(ns: string, name: string, ns': string, name': string)
    requires MapKey(name, ns) == MapKey(name', ns') && HasPrefix(name, "aeraki-") && HasPrefix(name', "aeraki-")
    requires !HasPrefix(ns' + "-", ns + "-aeraki-") && !HasPrefix(ns + "-", ns' + "-aeraki-")
    ensures ns == ns' && name == name'
  {
    if |ns| < |ns'| {
      LongerNamespace(ns, name, ns', name');
    } else if |ns'| < |ns| {
      LongerNamespace(ns', name', ns, name);
    }
    var key := MapKey(name, ns);
    assert key[..|ns|] == ns && key[..|ns'|] == ns' && key[|ns| + 1..] == name && key[|ns'| + 1..] == name';
  }

  /** Keys identify filters with names that start with `aeraki-` exactly when no namespace, with a
      dash added, starts with another one followed by `-aeraki-`. */
  lemma KeysIdentifyIff(namespaces: set<string>)
    ensures KeysIdentify(namespaces) <==>
            forall ns, ns' :: ns in namespaces && ns' in namespaces ==> !HasPrefix(ns' + "-", ns + "-aeraki-")
  {
    if ns, ns' :| ns in namespaces && ns' in namespaces && HasPrefix(ns' + "-", ns + "-aeraki-") {
      var name, name' := CollidingNames(ns, ns');
    } else {
      forall ns, ns', name, name' |
        && ns in namespaces && ns' in namespaces
        && HasPrefix(name, "aeraki-") && HasPrefix(name', "aeraki-")
        && MapKey(name, ns) == MapKey(name', ns')
        ensures ns == ns' && name == name'
      {
        SameKeySameFilter(ns, name, ns', name');
      }
    }
  }

  lemma LongerContainsAeraki(ns: string, ns': string)
    requires HasPrefix(ns' + "-", ns + "-aeraki-")
    ensures Contains(ns', "-aeraki")
  {
    var s := ns' + "-";
    assert s[..|ns| + 8] == ns + "-aeraki-";
    assert ns'[|ns|..][..7] == s[|ns|..|ns| + 7] == "-aeraki";
    ContainsAt(ns', |ns|, "-aeraki");
  }

  /** In particular, namespaces that nowhere contain `-aeraki` are safe. */
  lemma KeysIdentifyWithoutAeraki(namespaces: set<string>)
    requires forall ns :: ns in namespaces ==> !Contains(ns, "-aeraki")
    ensures KeysIdentify(namespaces)
  {
    forall ns, ns' | ns in namespaces && ns' in namespaces
      ensures !HasPrefix(ns' + "-", ns + "-aeraki-")
    {
      if HasPrefix(ns' + "-", ns + "-aeraki-") {
        LongerContainsAeraki(ns, ns');
      }
    }
    KeysIdentifyIff(namespaces);
  }

  // --- Filter names ---

  ghost predicate OutboundNamesIdentify(vips: set<string>) {
    forall host, vip, port, host', vip', port' ::
      && vip in vips && vip' in vips
      && OutboundName(host, vip, port) == OutboundName(host', vip', port')
      ==> host == host' && vip == vip' && port == port'
  }

  lemma OutboundTail(host: string, vip: string, port: nat, host': string, vip': string, port': nat)
    requires OutboundName(host, vip, port) == OutboundName(host', vip', port')
    ensures host + "-" + vip == host' + "-" + vip' && port == port'
  {
    var head, head' := "aeraki-outbound-" + host + "-" + vip, "aeraki-outbound-" + host' + "-" + vip';
    CutNumber(head, port, head', port', '-');
    assert head[16..] == host + "-" + vip && head'[16..] == host' + "-" + vip';
  }

  lemma ShorterVip(host: string, vip: string, host': string, vip': string)
    requires host + "-" + vip == host' + "-" + vip' && |vip| < |vip'|
    ensures HasSuffix(vip', "-" + vip)
  {
    var s := host + "-" + vip;
    assert s[|host|..] == "-" + vip;
    assert s[|host'| + 1..] == vip';
    assert vip'[|vip'| - |vip| - 1..] == s[|host|..];
  }

  /** Outbound names identify host, address and port exactly when no address ends with a dash
      followed by another one. */
  lemma OutboundNamesIdentifyIff(vips: set<string>)
    ensures OutboundNamesIdentify(vips) <==>
            forall vip, vip' :: vip in vips && vip' in vips ==> !HasSuffix(vip', "-" + vip)
  {
    forall vip, vip' | vip in vips && vip' in vips && HasSuffix(vip', "-" + vip)
      ensures !OutboundNamesIdentify(vips)
    {
      var y := vip'[..|vip'| - |vip| - 1];
      assert vip' == y + "-" + vip;
      var host, host' := "h-" + y, "h";
      assert host + "-" + vip == host' + "-" + vip';
      assert OutboundName(host, vip, 1) == "aeraki-outbound-" + (host + "-" + vip) + "-" + Itoa(1);
      assert OutboundName(host', vip', 1) == "aeraki-outbound-" + (host' + "-" + vip') + "-" + Itoa(1);
      assert |vip| < |vip'|;
    }
    if forall vip, vip' :: vip in vips && vip' in vips ==> !HasSuffix(vip', "-" + vip) {
      forall host, vip, port, host', vip', port' |
        vip in vips && vip' in vips && OutboundName(host, vip, port) == OutboundName(host', vip', port')
        ensures host == host' && vip == vip' && port == port'
      {
        OutboundTail(host, vip, port, host', vip', port');
        if |vip| < |vip'| {
          ShorterVip(host, vip, host', vip');
        } else if |vip'| < |vip| {
          ShorterVip(host', vip', host, vip);
        }
        var s := host + "-" + vip;
        assert s[..|host|] == host && s[..|host'|] == host' && s[|host| + 1..] == vip && s[|host'| + 1..] == vip';
      }
    }
  }

  lemma SuffixHasDash(vip: string, vip': string)
    requires HasSuffix(vip', "-" + vip)
    ensures '-' in vip'
  {
    assert vip'[|vip'| - |vip| - 1] == ("-" + vip)[0];
  }

  /** In particular, addresses without a dash are safe. */
  lemma OutboundNamesIdentifyDashFree(vips: set<string>)
    requires forall vip :: vip in vips ==> '-' !in vip
    ensures OutboundNamesIdentify(vips)
  {
    forall vip, vip' | vip in vips && vip' in vips
      ensures !HasSuffix(vip', "-" + vip)
    {
      if HasSuffix(vip', "-" + vip) {
        SuffixHasDash(vip, vip');
      }
    }
    OutboundNamesIdentifyIff(vips);
  }

  /** Inbound names identify host and port, no inbound name is an outbound one, and both kinds fall
      under the map-key theorem. */
  lemma InboundNamesIdentify(host: string, port: nat, host': string, port': nat, vip: string)
    ensures InboundName(host, port) == InboundName(host', port') ==> host == host' && port == port'
    ensures InboundName(host, port) != OutboundName(host', vip, port')
    ensures HasPrefix(InboundName(host, port), "aeraki-") && HasPrefix(OutboundName(host', vip, port'), "aeraki-")
  {
    var head, head' := "aeraki-inbound-" + host, "aeraki-inbound-" + host';
    if InboundName(host, port) == InboundName(host', port') {
      CutNumber(head, port, head', port', '-');
      assert head[15..] == host && head'[15..] == host';
    }
    assert InboundName(host, port)[7] == 'i' && OutboundName(host', vip, port')[7] == 'o';
  }

  // --- Listeners ---

  /** One outbound filter for each address of the service. */
  function OutboundFilters(se: ServiceEntry, port: ServicePort, proxy: string): seq<EnvoyFilterWrapper>
    requires se.hosts != []
  {
    seq(|se.addresses|, i requires 0 <= i < |se.addresses| =>
      EnvoyFilterWrapper(OutboundName(se.hosts[0], se.addresses[i], port.number), "",
                         EnvoyFilter(map[], [Patch(ListenerName(se.addresses[i], port.number), proxy)])))
  }

  method GenerateOutboundListenerEnvoyFilters(se: ServiceEntry, port: ServicePort, proxy: string)
    returns (envoyFilters: seq<EnvoyFilterWrapper>)
    requires se.hosts != []
    ensures envoyFilters == OutboundFilters(se, port, proxy)
    ensures |envoyFilters| == |se.addresses|
    ensures forall i :: 0 <= i < |se.addresses| ==>
              && envoyFilters[i].name == "aeraki-outbound-" + se.hosts[0] + "-" + se.addresses[i] + "-" + Itoa(port.number)
              && envoyFilters[i].spec.configPatches == [Patch(se.addresses[i] + "_" + Itoa(port.number), proxy)]
  {
    envoyFilters := [];
    for i := 0 to |se.addresses|
      invariant envoyFilters == OutboundFilters(se, port, proxy)[..i]
    {
      var outboundListenerName := se.addresses[i] + "_" + Itoa(port.number);
      var patch := Patch(outboundListenerName, proxy);
      envoyFilters := envoyFilters + [EnvoyFilterWrapper(
        OutboundName(se.hosts[0], se.addresses[i], port.number), "", EnvoyFilter(map[], [patch]))];
    }
  }

  /** Once the mesh has converged, the outbound filters of two eligible single-address services never
      patch the same listener, whatever their ports. */
  lemma ListenersNeverClash(s: State, steps: seq<Step>, k: ObjectKey, k': ObjectKey,
                            port: ServicePort, port': ServicePort, proxy: string, proxy': string)
    requires s.Valid() && ServesAll(s.store, steps) && Runs(s, steps)
    ensures var store := Final(s, steps).store;
            && k in store && k' in store && k != k'
            && Eligible(store[k]) && Eligible(store[k']) && store[k].hosts != [] && store[k'].hosts != []
            && |store[k].addresses| <= 1 && |store[k'].addresses| <= 1
            ==> forall f, f' :: f in OutboundFilters(store[k], port, proxy) && f' in OutboundFilters(store[k'], port', proxy')
                                ==> f.spec.configPatches[0].listener != f'.spec.configPatches[0].listener
  {
    Convergence(s, steps);
    var store := Final(s, steps).store;
    if k in store && k' in store && k != k' && Eligible(store[k]) && Eligible(store[k']) {
      var vip, vip' := store[k].addresses[0], store[k'].addresses[0];
      if ListenerName(vip, port.number) == ListenerName(vip', port'.number) {
        CutNumber(vip, port.number, vip', port'.number, '_');
      }
    }
  }
}

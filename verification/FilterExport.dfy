/**
  Exporting filters to namespaces: what the webhook accepts as a MetaRouter's `exportTo`, and the
  step that files one copy of a filter for each listed namespace.
 */
module FilterExport {
  import opened Mesh
  import opened FilterNames
  import opened FilterDiff
  import opened FilterConvergence

  datatype ExportError =
    | DuplicateOfCurrent(namespace: string)
    | Duplicate(entry: string)
    | Invalid(entry: string)
    | PublicAndOthers
    | NoneAndOthers

  /** Istio's visibility values, or a DNS label, as `isLabel` decides. */
  predicate ValidVisibility(v: string, isLabel: string -> bool) {
    v == "." || v == "*" || v == "~" || isLabel(v)
  }

  function Resolve(namespace: string, entry: string): string {
    if entry == "." then namespace else entry
  }

  function Resolved(namespace: string, exportTo: seq<string>): (keys: seq<string>)
    ensures |keys| == |exportTo| && forall i :: 0 <= i < |keys| ==> keys[i] == Resolve(namespace, exportTo[i])
  {
    seq(|exportTo|, i requires 0 <= i < |exportTo| => Resolve(namespace, exportTo[i]))
  }

  predicate Different(keys: seq<string>) {
    forall i, j :: 0 <= i < j < |keys| ==> keys[i] != keys[j]
  }

  ghost predicate AllValid(keys: seq<string>, isLabel: string -> bool) {
    forall key :: key in keys ==> ValidVisibility(key, isLabel)
  }

  /** Valid, pairwise different once `.` is the namespace, and alone if `*` or `~`. */
  ghost predicate Acceptable(namespace: string, exportTo: seq<string>, isLabel: string -> bool) {
    var keys := Resolved(namespace, exportTo);
    && AllValid(keys, isLabel) && Different(keys)
    && ("*" in keys || "~" in keys ==> |keys| == 1)
  }

  /** In a namespace with an ordinary name: every entry is a dot, a star, a tilde or a label, no entry is
      repeated, the dot does not stand beside the namespace's own name, and a star or tilde stands alone. */
  lemma AcceptableIff(namespace: string, exportTo: seq<string>, isLabel: string -> bool)
    requires isLabel(namespace) && namespace != "." && namespace != "*" && namespace != "~"
    ensures Acceptable(namespace, exportTo, isLabel) <==>
            && (forall e :: e in exportTo ==> e == "." || e == "*" || e == "~" || isLabel(e))
            && (forall i, j :: 0 <= i < j < |exportTo| ==> exportTo[i] != exportTo[j])
            && !("." in exportTo && namespace in exportTo)
            && ("*" in exportTo || "~" in exportTo ==> |exportTo| == 1)
  {
    var keys := Resolved(namespace, exportTo);
    assert forall i :: 0 <= i < |keys| ==> keys[i] in keys && exportTo[i] in exportTo;
    assert "*" in keys <==> "*" in exportTo;
    assert "~" in keys <==> "~" in exportTo;
    DifferentIff(namespace, exportTo);
  }

  lemma DifferentIff(namespace: string, exportTo: seq<string>)
    requires namespace != "."
    ensures Different(Resolved(namespace, exportTo)) <==>
            && (forall i, j :: 0 <= i < j < |exportTo| ==> exportTo[i] != exportTo[j])
            && !("." in exportTo && namespace in exportTo)
  {
    var keys := Resolved(namespace, exportTo);
    if "." in exportTo && namespace in exportTo {
      var i, j :| 0 <= i < |exportTo| && 0 <= j < |exportTo| && exportTo[i] == "." && exportTo[j] == namespace;
      assert keys[i] == keys[j] && i != j;
    }
  }

  lemma DifferentLast(init: seq<string>, last: string)
    ensures Different(init + [last]) <==> Different(init) && last !in init
  {
    var keys := init + [last];
    assert keys[|init|] == last && forall i :: 0 <= i < |init| ==> keys[i] == init[i];
  }

  method CheckEntries(namespace: string, exportTo: seq<string>, isLabel: string -> bool)
    returns (errs: seq<ExportError>, exportToMap: set<string>)
    ensures errs == [] <==> AllValid(Resolved(namespace, exportTo), isLabel) && Different(Resolved(namespace, exportTo))
    ensures forall key :: key in exportToMap <==> key in Resolved(namespace, exportTo) && ValidVisibility(key, isLabel)
  {
    ghost var keys := Resolved(namespace, exportTo);
    errs, exportToMap := [], {};
    for i := 0 to |exportTo|
      invariant errs == [] <==> AllValid(keys[..i], isLabel) && Different(keys[..i])
      invariant forall key :: key in exportToMap <==> key in keys[..i] && ValidVisibility(key, isLabel)
    {
      var e := exportTo[i];
      var key := e;
      if e == "." {
        key := namespace;
      }
      assert keys[..i + 1] == keys[..i] + [key];
      DifferentLast(keys[..i], key);
      if key in exportToMap {
        if key != e {
          errs := errs + [DuplicateOfCurrent(namespace)];
        } else {
          errs := errs + [Duplicate(e)];
        }
      } else if !ValidVisibility(key, isLabel) {
        errs := errs + [Invalid(key)];
      } else {
        exportToMap := exportToMap + {key};
      }
    }
    assert keys[..|exportTo|] == keys;
  }

  method ValidateExportTo(namespace: string, exportTo: seq<string>, isLabel: string -> bool)
    returns (errs: seq<ExportError>)
    ensures errs == [] <==> Acceptable(namespace, exportTo, isLabel)
  {
    errs := [];
    if |exportTo| > 0 {
      var exportToMap;
      errs, exportToMap := CheckEntries(namespace, exportTo, isLabel);
      if "*" in exportToMap && |exportTo| > 1 {
        errs := errs + [PublicAndOthers];
      }
      if "~" in exportToMap && |exportTo| > 1 {
        errs := errs + [NoneAndOthers];
      }
    }
  }

  // --- The export step ---

  datatype Exporter = Exporter(namespaceScoped: bool, namespace: string)

  datatype Router = Router(namespace: string, exportTo: seq<string>)

  function Target(rootNamespace: string, routerNamespace: string, entry: string): string {
    if entry == "." then routerNamespace else if entry == "*" then rootNamespace else entry
  }

  function DefaultNamespace(c: Exporter, serviceNamespace: string): string {
    if c.namespaceScoped then serviceNamespace else c.namespace
  }

  /** The namespaces that get a copy. */
  function Targets(c: Exporter, serviceNamespace: string, router: Option<Router>): (r: seq<string>)
    ensures |r| > 0
  {
    if router.None? || router.value.exportTo == [] then [DefaultNamespace(c, serviceNamespace)]
    else
      seq(|router.value.exportTo|, i requires 0 <= i < |router.value.exportTo| =>
        Target(c.namespace, router.value.namespace, router.value.exportTo[i]))
  }

  /** One copy filed for each namespace, later ones over earlier ones. */
  function Filed(wrapper: EnvoyFilterWrapper, targets: seq<string>, filters: Generated): Generated {
    if targets == [] then filters
    else
      var last := targets[|targets| - 1];
      Filed(wrapper, targets[..|targets| - 1], filters)[MapKey(wrapper.name, last) := wrapper.(namespace := last)]
  }

  method CreateEnvoyFiltersOnExportNSs(c: Exporter, serviceNamespace: string, router: Option<Router>,
                                       wrapper: EnvoyFilterWrapper, filters: Generated)
    returns (envoyFilters: Generated)
    ensures envoyFilters == Filed(wrapper, Targets(c, serviceNamespace, router), filters)
  {
    envoyFilters := filters;
    var exportNSs := [];
    if router.Some? {
      exportNSs := router.value.exportTo;
    }
    ghost var targets := Targets(c, serviceNamespace, router);
    if |exportNSs| == 0 {
      var ns := DefaultNamespace(c, serviceNamespace);
      envoyFilters := envoyFilters[MapKey(wrapper.name, ns) := wrapper.(namespace := ns)];
      assert targets[..0] == [];
    } else {
      for i := 0 to |exportNSs|
        invariant envoyFilters == Filed(wrapper, targets[..i], filters)
      {
        var exportNS := exportNSs[i];
        if exportNS == "." {
          exportNS := router.value.namespace;
        } else if exportNS == "*" {
          exportNS := c.namespace;
        }
        var wrapperClone := EnvoyFilterWrapper(wrapper.name, exportNS, wrapper.spec);
        envoyFilters := envoyFilters[MapKey(wrapperClone.name, wrapperClone.namespace) := wrapperClone];
        assert targets[..i + 1][..i] == targets[..i];
      }
      assert targets[..|exportNSs|] == targets;
    }
  }

  lemma KeyOfNamespace(name: string, ns: string, ns': string)
    requires MapKey(name, ns) == MapKey(name, ns')
    ensures ns == ns'
  {
    assert MapKey(name, ns)[..|ns|] == ns && MapKey(name, ns')[..|ns'|] == ns';
  }

  lemma {:induction false} FiledExact(wrapper: EnvoyFilterWrapper, targets: seq<string>, filters: Generated)
    ensures var r := Filed(wrapper, targets, filters);
            && (forall ns :: ns in targets ==> MapKey(wrapper.name, ns) in r && r[MapKey(wrapper.name, ns)] == wrapper.(namespace := ns))
            && (forall key :: (forall ns :: ns in targets ==> key != MapKey(wrapper.name, ns)) ==>
                  (key in r <==> key in filters) && (key in filters ==> r[key] == filters[key]))
            && (WellKeyed(filters) ==> WellKeyed(r))
  {
    if targets != [] {
      var init, last := targets[..|targets| - 1], targets[|targets| - 1];
      assert targets == init + [last];
      FiledExact(wrapper, init, filters);
      forall ns | ns in targets && MapKey(wrapper.name, ns) == MapKey(wrapper.name, last)
        ensures ns == last
      {
        KeyOfNamespace(wrapper.name, ns, last);
      }
    }
  }

  /** Without a router, or with an empty list, exactly one entry is set: in the service's namespace if
      aeraki is scoped to namespaces, in aeraki's own otherwise. */
  lemma ExportByDefault(c: Exporter, serviceNamespace: string, router: Option<Router>, wrapper: EnvoyFilterWrapper, filters: Generated)
    requires router.Some? ==> router.value.exportTo == []
    ensures var r := Filed(wrapper, Targets(c, serviceNamespace, router), filters);
            && (c.namespaceScoped ==> r == filters[serviceNamespace + "-" + wrapper.name :=
                                                   EnvoyFilterWrapper(wrapper.name, serviceNamespace, wrapper.spec)])
            && (!c.namespaceScoped ==> r == filters[c.namespace + "-" + wrapper.name :=
                                                    EnvoyFilterWrapper(wrapper.name, c.namespace, wrapper.spec)])
  {
    var targets := Targets(c, serviceNamespace, router);
    assert targets[..0] == [] && Filed(wrapper, [], filters) == filters;
  }

  /** For an accepted list, the targets are pairwise different, so the step files exactly one filter
      for each entry, under pairwise different keys, and leaves every other entry of the map as it
      was. */
  lemma ExportIsOnePerEntry(c: Exporter, serviceNamespace: string, router: Router, isLabel: string -> bool,
                            wrapper: EnvoyFilterWrapper, filters: Generated)
    requires router.exportTo != [] && Acceptable(router.namespace, router.exportTo, isLabel)
    ensures var targets := Targets(c, serviceNamespace, Some(router));
            var r := Filed(wrapper, targets, filters);
            && |targets| == |router.exportTo|
            && (forall i, j :: 0 <= i < j < |targets| ==> MapKey(wrapper.name, targets[i]) != MapKey(wrapper.name, targets[j]))
            && (forall i :: 0 <= i < |targets| ==>
                  && (router.exportTo[i] == "." ==> targets[i] == router.namespace)
                  && (router.exportTo[i] == "*" ==> targets[i] == c.namespace)
                  && (router.exportTo[i] != "." && router.exportTo[i] != "*" ==> targets[i] == router.exportTo[i])
                  && MapKey(wrapper.name, targets[i]) in r
                  && r[MapKey(wrapper.name, targets[i])] == wrapper.(namespace := targets[i]))
            && (forall key :: (forall ns :: ns in targets ==> key != MapKey(wrapper.name, ns)) ==>
                  (key in r <==> key in filters) && (key in filters ==> r[key] == filters[key]))
            && (WellKeyed(filters) ==> WellKeyed(r))
  {
    var targets := Targets(c, serviceNamespace, Some(router));
    FiledExact(wrapper, targets, filters);
    forall i, j | 0 <= i < j < |targets|
      ensures MapKey(wrapper.name, targets[i]) != MapKey(wrapper.name, targets[j])
    {
      var keys := Resolved(router.namespace, router.exportTo);
      assert keys[i] in keys && keys[j] in keys && keys[i] != keys[j];
      assert router.exportTo[i] != "*" && router.exportTo[j] != "*";
      if MapKey(wrapper.name, targets[i]) == MapKey(wrapper.name, targets[j]) {
        KeyOfNamespace(wrapper.name, targets[i], targets[j]);
      }
    }
    assert forall i :: 0 <= i < |targets| ==> targets[i] in targets;
  }
}
